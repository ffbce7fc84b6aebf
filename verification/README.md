# dte: editing engine, verified

A model of the core of the text editor dte, and proofs about it. The program
is imperative, and so is the model: blocks, iterators, views, change nodes,
cache arrays, frames, linked history entries and string buffers are classes and
arrays that methods update in place, with loops where the program has loops.
Each method is proved against a function on plain values, and the main results
are about those functions and about whole runs.

## Parts

- `Bytes`, `Layout`: byte sequences, lines, and the flat text of a list of
  blocks. A cursor (block, offset) stands for one flat position.
- `Block`, `BlockIter`, `Packing`, `Trimming`, `Edit`: the text store. Its
  insertions, deletions and replacements refine one operation on the flat text,
  `Splice`, and keep the representation invariant of `sanity_check_blocks`.
- `LineStates`, `Highlight`: the cache of line start states, for an arbitrary
  highlighter `step`. `View.Valid` contains the consistency of the cache with
  the text, so every edit is proved to keep it.
- `Records`, `ChangeTree`, `Commands`: the undo tree, merging of typed edits and
  change chains. Each node carries, as ghost state, the text that belongs to
  it; nodes on the path to the root are stored ready to be undone and all others
  ready to be redone.
- `Editor`, `Session`: the editor on whole texts, in which every version has its
  full text, and the proof that runs of commands on the undo tree refine it. A
  picture numbers the nodes outside of chains as versions.
- `CommandSyntax`, `Serialize`, `Parse`, `Quoting`, `Reading`, `Strings`: writing
  and reading command lines. `Reading` tells what raw text means, byte by byte.
- `Macro`, `Searching`: recording macros, and what recorded searches and
  insertions do when they are replayed.
- `Sharing`, `Frames`, `FramePlans`, `FrameNeeds`, `Screen`, `Arrange`: laying out windows,
  splitting and removing them, and whole runs of that. A plan is the value of a
  tree of frames: what points to what, and which subtree, minimum size and edge
  belong to each frame.
- `Wrap`, `History`, `Convert`: paragraph wrapping, command history, and line
  endings in files.

## What turned out not to hold

Where the program does not do what one would expect of it, the code was
followed, an input that shows it was given, and the exact condition was proved.

- Text typed while a macro was recorded stays pending when that recording is
  cancelled, and becomes the first command of the next macro
  (`Macro.CancelledText`). A macro consists of the reported events alone exactly
  if nothing was pending before (`Macro.LeftoverShows`).
- Searching again backwards, in the search mode and without a pattern, is
  recorded as `search -p`. Replaying that makes the same search but leaves the
  direction forwards, where it was backwards. What is searched for afterwards is
  the same all the same, as every recorded search says its direction
  (`Searching.SearchIsReplayed`, `Searching.SearchesAreReplayed`).
- Wrapping joins a word of width 0 at the start of a line to the next word if
  there is no indentation (`Wrap.JoinsInvisible`); a text keeps its words exactly
  if that never happens (`Wrap.WrappingKeepsWords`, `Wrap.WordsKeptExactly`), in
  particular if every word can be seen or there is an indentation.
- A text with Unix line endings whose first line ends in CR is loaded with DOS
  line endings and without that CR (`Convert.LoneCrIsLost`). The option for the
  line endings of new files (`src/options.h:80`) also decides about existing
  ones: set to DOS, every file is loaded so (`Convert.DefaultWins`). The exact
  conditions, one for the text and one for its line endings, are those of
  `Convert.SaveAndLoad`.
- Splitting a window does not always leave a screen that its windows fill: if
  the frame that is split has to grow to hold both windows, its parent does not
  notice (`Screens.TenColumns`, `Screens.TooNarrow`). A screen that was filled
  stays filled exactly if the frame is the root or had the room before
  (`Screens.Screen.Split`, `Screens.Screen.HasRoom`). The same goes for what is
  left in the parent of a window that is removed (`Screens.Screen.Remove`,
  `Screens.Screen.FitsWithout`), which always has the room if every frame was as
  large as it must be; so removals alone never spoil a screen that was laid out
  as a whole (`Arrangements.Arrange`).
- The least width of a window is that of its frame, separator column included.
  A window has fewer columns than that exactly if its frame was given no more
  than that and is not rightmost (`Frames.FrameSetSize`, `Frames.WindowRoom`);
  a screen with such a window comes about in three splits
  (`Screens.SevenColumnsWide`).
- A quote between the braces of a variable is a quote for the scanner but not
  for the expander, so the expander may stop short of the end of the argument
  (`Quoting.BracesHideQuotes`). It reads the argument to its end exactly if the
  scanner that steps over `${...}` as one piece ends there
  (`Quoting.ArgumentIsRead`), and that is always so if no unescaped quote stands
  between braces (`Quoting.PlainBracesEnd`).
- The comment at `src/command/serialize.c:63` promises that an escaped argument
  is read back as it was. With the tilde left unescaped that holds exactly for a
  reader that does not expand it, or whose home directory is `~`
  (`Quoting.UnescapedTildeReads`, `Quoting.UnescapedTildeExpands`).

## Conventions

`hide` statements in proofs only keep definitions away from the solver that a
step does not need. Ghost parameters and ghost fields (`Repr`, `texts`, `text`,
`path`, `nodes`, `below`) say what a structure stands for; no decision of the
program depends on them.

## Model

| member | source | states |
|---|---|---|
| BlockStore.Block.constructor | src/block.c:6-13 | a new block is empty and has room for what was asked for, rounded up to whole units of 64 bytes |
| BlockStore.Block.Grow | src/block.c:15-21 | makes room, in whole units of 64 bytes, only where there is too little, without changing the text |
| BlockStore.CopyCountNl | src/edit.c:54-64 | copies the bytes into place, leaves the rest of the target alone and returns the exact newline count |
| BlockStore.Block.Insert | src/edit.c:66-77 | the block text becomes the flat insertion, the newline count stays exact |
| BlockStore.Block.Delete | src/edit.c:264-277 | the bytes leave the block for the output buffer at their place, the rest closes up, the newline count stays exact |
| BlockStore.Block.Append | src/edit.c:305-310 | the block takes over the text of the next one behind its own |
| BlockStore.Block.Replace | src/edit.c:348-365 | the block text becomes the flat replacement; returns the old bytes and both newline counts |
| BlockStore.Block.LineEndFrom | src/block-iter.c:139-148 | the shortcut for blocks of one line and the search find the same line end: the first newline at or behind the offset |
| Bytes.SpliceLines | src/edit.c:224-236 | how any flat edit changes the sequence of lines: lines before the edited one stay, lines behind it move by the newline difference, the last edited line keeps its end |
| Layout.SpliceInBlock | src/edit.c:66-77 | an edit inside of one block is the same edit of the flat text at the flat position |
| Layout.BlockLines | src/block-iter.c:247-264 | the lines of a block are a run of the lines of the text |
| Packing.PackIsFlat | src/edit.c:104-191 | splitting loses and adds nothing: the new blocks concatenate to the text |
| Packing.PackIsGood | src/edit.c:79-191 | every new block is a run of whole lines of at most 512 bytes or exactly one line, and is full: the next line would not have fitted |
| Packing.PackTerminated | src/edit.c:80-81 | all new blocks end in a newline if the text does |
| Packing.LineEndInPieces | src/edit.c:109-140 | searching the three source segments one after another finds the line end of their concatenation |
| Packing.PackedBlock | src/edit.c:104-200 | putting the packed blocks in the place of the old one keeps the representation invariant |
| Edit.View.SplitBlock | src/edit.c:104-191 | terminates and puts exactly the greedy packing of old[..offset] + new + old[offset..] in front of the old block, with the exact newline difference |
| Edit.View.SplitAndInsert | src/edit.c:88-202 | the blocks made replace the old one and the flat position of the cursor is unchanged |
| Edit.View.InsertToCurrent | src/edit.c:66-77 | the current block takes the insertion in |
| Edit.View.InsertBytes | src/edit.c:204-222 | whichever way is taken, the text becomes the flat insertion, the blocks hold whole lines and the cursor keeps its flat position; a block that has room, is small or stays one line takes them in, any other is split |
| Edit.View.DoInsert | src/edit.c:224-236 | the flat insertion at the cursor, which does not move; the block invariant, the newline count and the highlighter cache stay right |
| Trimming.TrimFlat | src/edit.c:264-280 | taking bytes out of one block, and the block out of the list if that empties it, is the flat deletion |
| Trimming.DeleteRound | src/edit.c:264-286 | each round of the loop moves on in the one flat slice that is to be deleted |
| Trimming.TrimDone | src/edit.c:288-312 | when no cut line is left, the representation invariant holds again |
| Trimming.TrimMerged | src/edit.c:300-312 | joining a cut block with the next one restores the representation invariant and leaves the flat text alone |
| Edit.View.TrimBlocks | src/edit.c:264-286 | across any number of blocks, removes and returns exactly the flat slice, with its newline count |
| Edit.View.Mend | src/edit.c:288-312 | repairs the cursor and the blocks after a deletion: invariant restored, text and flat cursor position unchanged |
| Edit.View.DoDelete | src/edit.c:244-324 | the flat deletion at the cursor, which does not move; returns exactly the deleted bytes; all invariants kept, highlighter cache included |
| Edit.View.ReplaceInCurrent | src/edit.c:348-379 | the one-block path is the flat replacement |
| Edit.View.DoReplace | src/edit.c:326-389 | both paths are the same flat replacement and return the same deleted bytes; all invariants kept |
| Edit.View.UpdateCursorY | src/view.c:13-27 | the cursor line is the number of newlines before the cursor |
| Edit.View.WouldDeleteLastBytes | src/change.c:342-354 | true exactly if the deletion reaches the end of the text |
| BlockIters.BlockIter.IsBof | src/block-iter.h:48-51 | true exactly at flat position 0, whichever block stands for it |
| BlockIters.BlockIter.IsEof | src/block-iter.h:53-56 | true exactly at the end of the flat text |
| BlockIters.BlockIter.IsBol | src/block-iter.h:58-62 | true exactly at the start of a line of the flat text |
| BlockIters.BlockIter.IsEol | src/block-iter.h:64-73 | true exactly before a newline or at the end of the flat text |
| BlockIters.BlockIter.NextBlock | src/block-iter.h:75-84 | goes to the start of the next block, or tells that there is none |
| BlockIters.BlockIter.EndOfPrevBlock | src/block-iter.h:86-95 | goes to the end of the previous block, or tells that there is none |
| BlockIters.BlockIter.Normalize | src/block-iter.h:97-101 | changes the representation of a block boundary but not the flat position |
| BlockIters.BlockIter.BackBytes | src/block-iter.c:212-220 | moves back by exactly the count in the flat text |
| BlockIters.BlockIter.SkipBytes | src/block-iter.c:222-232 | moves on by exactly the count in the flat text |
| BlockIters.BlockIter.GotoOffset | src/block-iter.c:234-245 | lands at the flat offset; an offset past the end changes nothing |
| BlockIters.BlockIter.GetOffset | src/block-iter.c:266-277 | returns the flat position, so it is n after going to n |
| BlockIters.BlockIter.Bol | src/block-iter.c:99-127 | goes to the start of the line and returns how far that was |
| BlockIters.BlockIter.Eol | src/block-iter.c:129-149 | goes to the end of the line and returns how far that was |
| BlockIters.BlockIter.EatLine | src/block-iter.c:153-160 | goes behind the line and its newline and returns how far that was, 0 only at the end of the text |
| BlockIters.BlockIter.GotoLine | src/block-iter.c:247-264 | lands at the start of line min(n, number of lines) |
| BlockIters.BlockIter.GetBytes | src/block-iter.c:279-298 | returns the flat slice, across any number of blocks |
| BlockIters.BlockIter.GetLineWithNl | src/block-iter.c:302-322 | returns the rest of the line with its newline |
| Records.EdgeReverse | src/change.c:173-214 | a record that leads from one text to another leads back once insertion and deletion are swapped |
| Records.InsertionExtends | src/change.c:64-71 | an insertion inside of what a record inserted, taken into the record, gives a record of both |
| Records.DeletionExtends | src/change.c:79-103 | a deletion behind a deletion record, its bytes appended, gives a record of both |
| Records.ErasureExtends | src/change.c:79-103 | a deletion in front of a deletion record, its bytes put first, gives a record of both |
| Records.InsertionEnds | src/change.c:327-332 | a newline has to be forced exactly for an insertion at the end that does not end in one |
| Records.ErasureFallsShort | src/change.c:79-103 | an erasure of several bytes that has to leave the final newline would, taken into a record, begin a byte too late there; that is right exactly if nothing but newlines is erased |
| Records.DeletionEnds | src/change.c:363-374 | a deletion would cut a line short exactly if it reaches the end from inside of a line; one byte less is then the deletion with a newline put back |
| Records.ReplacementEnds | src/change.c:406-415 | a replacement would cut a line short exactly if it reaches the end without a newline of its own; one byte less is then the replacement with a newline put back |
| ChangeTrees.Change.Reverse | src/change.c:173-214 | plays a record backwards: the text becomes the one at its other end, the record is stored the other way round, the cursor is where the original puts it |
| ChangeTrees.ChangeTree.constructor | src/buffer.c:59-64 | a new buffer has one node, whose text is the text it was opened with |
| ChangeTrees.ChangeTree.AddChange | src/change.c:24-31 | a new child of the current node keeps every invariant of the tree |
| ChangeTrees.ChangeTree.NewChange | src/change.c:33-57 | links in a pending chain barrier first, then the new record, whose node leads from the old text to the new one |
| ChangeTrees.ChangeTree.RecordInsert | src/change.c:64-77 | a typed insertion goes into the current node if the last one did, else into a node of its own; either way the nodes still lead exactly to the texts |
| ChangeTrees.ChangeTree.RecordDelete | src/change.c:79-110 | the same for deletions and erasures, at the end or at the beginning of the record |
| ChangeTrees.ChangeTree.RecordReplace | src/change.c:112-123 | a replacement is always a node of its own |
| ChangeTrees.ChangeTree.BeginChangeChain | src/change.c:135-143 | a chain begins with a barrier that is not in the tree yet |
| ChangeTrees.ChangeTree.EndChangeChain | src/change.c:145-155 | a chain without changes leaves the tree alone; any other is closed by a barrier; the text is unchanged |
| ChangeTrees.ChangeTree.InsertBytes | src/change.c:320-340 | the flat insertion plus at most one forced final newline, recorded exactly |
| ChangeTrees.ChangeTree.DeleteBytes | src/change.c:356-391 | the flat deletion but for at most one retained final newline, recorded exactly; if nothing changes, nothing is recorded and merging stops |
| ChangeTrees.ChangeTree.ReplaceBytes | src/change.c:393-423 | the flat replacement but for at most one final newline, recorded exactly |
| ChangeTrees.ChangeTree.RedoRetraces | src/change.c:216-295 | from the node an undo arrives at, one of its branches leads by one redo back to the node it came from, whole chains included |
| ChangeTrees.ChangeTree.UndoRetraces | src/change.c:216-295 | from the node a redo arrives at, one undo leads back to the node it came from, whole chains included |
| ChangeTrees.ChangeTree.ChainEndFromStart | src/change.c:224-238 | a chain has one end, whichever of its nodes one starts from |
| ChangeTrees.ChangeTree.UndoChain | src/change.c:224-238 | undoing a chain stops at its own start barrier, with the text of the node above it and the cursor where its first change is undone to |
| ChangeTrees.ChangeTree.Undo | src/change.c:216-243 | fails exactly at the root; otherwise the text becomes that of the parent, or that from before the whole chain, and the cursor goes where the first change of it was made, behind the text that an erasure took; some branch from there redoes it; no node changes its place or its text |
| ChangeTrees.ChangeTree.RedoChain | src/change.c:275-288 | redoing a chain stops at its own end barrier, with the text of that node and the cursor at its last change |
| ChangeTrees.ChangeTree.Redo | src/change.c:245-295 | fails exactly if there is no such branch; otherwise the text becomes that of the branch, with any chain redone as a whole, and the cursor goes to the last change redone; the next undo leads back |
| Commands.TypeChar | src/insert.c:202-209 | a typed character: text, cursor behind it, one merged node per run |
| Commands.DeleteCh | src/delete.c:11-29 | deletion of a character under the cursor, merged per run; the state stays ready for the next command |
| Commands.EraseCh | src/delete.c:31-50 | erasure of a character before the cursor, merged per run; the state stays ready for the next command |
| Commands.ReplaceAt | src/command/run.c:69-76 | a deletion, insertion or replacement by a command, at any place, is a node of its own, and none exactly if nothing is inserted and the text stays the same |
| Commands.EraseAllAt | src/commands.c:711-723 | an erasure by a command is a node of its own, and none exactly if the text stays the same; its node remembers to leave the cursor behind what comes back |
| Commands.UndoCommand | src/commands.c:2389-2405 | undo between commands: merging ends, invariants kept, cursor and text as undo says, some redo leads back to the node undone |
| Commands.RedoCommand | src/commands.c:1583-1592 | redo between commands: the branch asked for or the newest one, merging ends, invariants kept, cursor and text as redo says, the next undo leads back |
| Commands.ReplaceChain | src/replace.c:202-235 | any number of replacements in a row are one chain: a branch of the node there was, so that one undo leads back to its text; none of them recorded, no branch |
| Editors.TypeDoes | src/insert.c:202-209 | typing puts the character into the text at the cursor, which ends behind it |
| Editors.DeleteDoes | src/delete.c:11-29 | deleting takes exactly the bytes behind the cursor that it names, as far as there are any |
| Editors.EraseDoes | src/delete.c:31-50 | erasing takes exactly the bytes in front of the cursor that it names and moves it there, within a line |
| Editors.ReplaceDoes | src/change.c:393-424 | a replacement takes out exactly the bytes it names and puts its own in their place; the cursor ends behind them |
| Editors.ReplaceAllDoes | src/replace.c:100-160 | every element of a series is a replacement in the text that the ones before it left |
| Editors.EraseAtDoes | src/commands.c:711-723 | an erasure by a command takes out exactly the bytes it names and leaves the cursor there |
| Editors.MoveDoes | src/commands.c:934-939 | moving leaves text and versions alone, puts the cursor where it is told and ends merging |
| Editors.ReplaceIsUndone | src/change.c:173-295 | undoing a replacement gives back the text, redoing it makes it again, both with the cursor at its place |
| Editors.ReplaceAllIsUndone | src/change.c:173-295 | a series is undone as a whole, with the cursor at its first change, and redone with the cursor at its last one |
| Editors.RedoDoes | src/change.c:245-295 | branches are numbered from 1, oldest first; without a number the newest one is redone |
| Editors.BranchIsNewest | src/change.c:24-62 | a new version comes behind all other branches of the one it was made from, and changes no other version |
| Editors.RunKeeps | src/change.c:24-123 | in the editor on whole texts no run of commands loses a version, moves it or gives it another text, save the one that typed edits go into |
| Editors.ErasureIsUndone | src/commands.c:711-723 | undoing an erasure by a command gives back the text, with the cursor behind what was erased, but in front of a final newline that had to stay |
| Editors.BranchIsUndone | src/change.c:173-295 | one undo of an edit gives back the text from before it, and redoing the newest branch makes it again, with the cursor at the places recorded |
| Editors.UndoIsRedone | src/change.c:216-295 | wherever an undo leads, some redo leads back |
| Editors.RedoIsUndone | src/change.c:216-295 | wherever a redo leads, one undo leads back |
| Editors.EveryVersionIsReached | src/change.c:216-295 | from every state, some undos and redos lead to every version, and so to its text |
| Editors.TypingIsOneVersion | src/change.c:64-77 | typing any characters in a row makes exactly one new version, with the text after all of them |
| Editors.TypedIsInserted | src/change.c:320-334 | typing characters one by one gives the text that inserting them all at once gives, forced final newline included |
| Editors.RemovingIsOneVersion | src/change.c:79-110 | deletions, or erasures, in a row that all change the text make exactly one new version, which lacks exactly one slice of the text |
| Sessions.Execute | src/change.c:24-295 | every command, carried out in any state reached, does to the tree, the text, the cursor and the merging exactly what it does to the editor on whole texts |
| Sessions.Run | src/change.c:24-295 | so does any run of commands: the tree of nodes refines the editor on whole texts; every other node keeps its place and its text |
| Sessions.EveryNodeIsReached | src/change.c:216-295 | in every state reached, for every node outside of chains, some script of undos and redos leads to that node and its text |
| Sessions.ExecuteDraw | src/syntax/highlight.c:360-396 | drawing between commands changes neither text nor tree nor cursor, and draws each line from the state that recomputing from the first line gives |
| Sessions.UndoAll | src/change.c:216-243 | undoing until nothing is left ends at the root, with its text |
| Sessions.Session | src/change.c:173-295 | from opening on, any run of edits, chains, undos, redos of any branch and drawing is the run of the editor on whole texts, and undoing everything after it gives the text the buffer was opened with |
| Sessions.TypeThenUndo | src/change.c:64-77 | any number of characters typed in a row make exactly one node, with the text after all of them; one undo restores text and cursor, one redo makes them again |
| Sessions.RemoveThenUndo | src/change.c:79-110 | the same for characters deleted or erased in a row, whatever was done before, up to the first that removes nothing |
| LineStates.UnmarkedIsExact | src/syntax/highlight.c:264-298 | entries that are unmarked up to line k equal the states that running the highlighter from the first line gives |
| LineStates.InsertionKeepsConsistent | src/syntax/highlight.c:399-428 | with the line and the newline count of an insertion, shifting and marking keeps the cache consistent with the new text |
| LineStates.DeletionKeepsConsistent | src/syntax/highlight.c:431-464 | with the line and the newline count of a deletion, closing up, marking or truncating keeps the cache consistent with the new text |
| LineStates.InsertionKeepsEntries | src/syntax/highlight.c:399-428 | an insertion throws away no entry of a line in front of it or behind it and marks no more than those it brings in and one, unless it brings in more lines than there are entries |
| LineStates.DeletionKeepsEntries | src/syntax/highlight.c:431-464 | a deletion throws away only the entries of the lines it takes, and marks one |
| LineStates.FillStep | src/syntax/highlight.c:275-289 | filling one entry, and marking the next one unless it was right already, keeps all other entries consistent |
| LineStates.AppendStep | src/syntax/highlight.c:341-350 | an entry computed for the line behind the last known one keeps the cache consistent |
| Highlight.StateArray.MarkInvalid | src/syntax/highlight.c:17-21 | marks one entry and no other |
| Highlight.StateArray.HlInsert | src/syntax/highlight.c:399-428 | the in-place shifting and marking is exactly the insertion of lines into the entries |
| Highlight.StateArray.HlDelete | src/syntax/highlight.c:431-464 | the in-place closing up, marking and truncation is exactly the removal of lines from the entries |
| Highlight.StateArray.FillHole | src/syntax/highlight.c:264-298 | terminates, fills at least one entry, moves the iterator with it and restores consistency; entries behind those stay as they are, but the one behind the hole may be marked |
| Highlight.StateArray.FillHoles | src/syntax/highlight.c:305-335 | all holes up to the line are filled, whatever was marked before |
| Highlight.StateArray.FillStartStates | src/syntax/highlight.c:300-357 | from any consistent cache, terminates with all entries up to the line unmarked and equal to recomputing from the first line; entries behind that line stay as they are, but the next may be marked |
| Highlight.StateArray.HlLine | src/syntax/highlight.c:359-396 | the state behind a drawn line is known and unmarked afterwards; tells exactly whether it was not known or different before; of the entries behind it, one is marked exactly if it was |
| Highlight.StateArray.DrawLines | src/ui-view.c:381-414 | as many lines as asked for, or as there are, are drawn, each from the state that recomputing from the first line gives |
| Edit.View.NotifyInsert | src/edit.c:231-235 | the cursor line and newline count handed over describe the insertion, so the cache stays consistent |
| Edit.View.NotifyDelete | src/edit.c:316-321 | the cursor line and newline count handed over describe the deletion, so the cache stays consistent |
| Edit.View.NotifyReplace | src/edit.c:366-377 | a deletion and an insertion handed over one after the other describe the replacement |
| Sharing.Round | src/frame.c:118-132 | one round gives every child that needs more than the share its minimum and no other child anything |
| Sharing.Divide | src/frame.c:108-150 | terminates; sizes add up exactly, are the minimum or a common share q or q + 1, and a child has its minimum only if that is above q |
| Sharing.NobodyGains | src/frame.c:108-150 | no other division of the same total under the same minimums is fairer: who gets more takes it from a child that is above its minimum and at most one larger |
| Sharing.Fix | src/frame.c:159-180 | sizes add up exactly and respect the minimums; only the last child grows, and space is taken from the last children first, down to their minimums |
| Sharing.FirstGetMore | src/frame.c:108-150 | of two children that share, the first has no less than the other |
| Sharing.FixKeepsAll | src/frame.c:152-185 | sizes that are not too much together are all kept, and the last child gets what is left over |
| Sharing.FixKeepsMost | src/frame.c:152-185 | if they are too much, no other division that respects the minimums keeps as many of them from the first child on |
| Frames.GetMinW | src/frame.c:25-47 | the recursive least width, separators included |
| Frames.GetMinH | src/frame.c:49-71 | the recursive least height |
| Frames.MinPositive | src/frame.c:25-71 | every frame needs some room, so that 0 can mark a child without a size |
| Frames.DivideEqually | src/frame.c:108-150 | the children get the fair division of exactly the frame, and everything below them is laid out |
| Frames.FixSize | src/frame.c:152-185 | the children keep their sizes as far as they still fill the frame, and everything below them is laid out |
| Frames.SetSizes | src/frame.c:143-146 | children that get sizes adding up to the frame fill it along and across, and lay out everything below them |
| Frames.FrameSetSize | src/frame.c:313-333 | from any size asked for, every frame below has at least its minimum and is filled exactly by its children; every frame below that is to be divided equally is divided fairly, and the frame itself keeps the sizes it had as far as they fill it if it is not; windows leave one column unless rightmost, so that one has fewer than 8 exactly if 8 or fewer were asked for and it is not |
| Frames.RightmostFrame | src/frame.c:255-267 | tells whether the frame reaches the right edge, by its place in the tree |
| Frames.UpdateFrameCoordinates | src/frame.c:360-377 | every frame begins where the one before it ends, every window at its frame |
| Frames.CellHasOwner | src/frame.c:360-391 | every cell of a laid out frame belongs to a frame with a window |
| Frames.CellHasOneOwner | src/frame.c:360-391 | no cell belongs to two frames with windows, nor to any if it is outside |
| Frames.RightEdge | src/frame.c:255-267 | a frame ends where the screen does exactly if it is rightmost; no frame goes further |
| Frames.Separator | src/ui-window.c:4-20 | a window that is not rightmost leaves exactly one column, inside of its own frame; a rightmost one leaves none |
| Frames.WindowRoom | src/frame.c:25-71 | a window has at least 7 columns and 3 lines, and fewer than 8 columns exactly if its frame has no more than 8 and is not rightmost |
| Frames.SevenColumns | src/ui-window.c:4-20 | two windows side by side in 17 columns that are not rightmost: one has fewer columns than the least width |
| Screens.Screen.constructor | src/frame.c:276-293 | a screen with one window is a tree of one frame |
| Screens.Screen.Resize | src/ui.c:127-131 | from any terminal size the whole screen is laid out, evenly where frames are to be divided equally, and placed |
| Screens.Screen.Settle | src/frame.c:379-391 | laying out one frame leaves everything around it filled that was, but its parent exactly if the frame has kept its size |
| Screens.Screen.Reparent | src/frame.c:397-402 | the window of a frame moves into a frame in it; nothing around the frame is disturbed |
| Screens.Screen.AddFrame | src/frame.c:276-288 | a frame for a new window comes in at its index; the tree stays a tree and nothing around it is disturbed |
| FramePlans.OneMoreNeeds | src/frame.c:25-71 | one more window beside another adds 9 columns or 3 lines to what the frame needs along it, and nothing across it |
| Screens.Screen.Split | src/frame.c:393-413 | the new window comes just before or behind the old one; its parent is to be divided equally from now on and is, no other frame changes its mode; a screen that was filled stays filled exactly if that parent is the root or had the room for one more window before |
| Screens.Screen.SplitRoot | src/frame.c:416-429 | everything goes into a new root, before or behind the new window, and the whole screen is laid out, the root divided equally |
| Screens.Screen.Collapse | src/frame.c:456-472 | a frame left alone takes the place and the size of its parent; what was filled around it stays filled |
| Screens.Screen.Remove | src/frame.c:445-477 | exactly the frame and what is in it are gone, and its parent if it is left with one frame; every other window stays in its frame; what is left in the parent is divided equally or keeps its sizes as far as they fill it; a filled screen stays filled exactly if the parent is the root or is as large as what is left in it must be, and stays so with every frame as large as it must be if that was so before |
| Screens.Screen.EveryCell | src/frame.c:360-391 | on a filled screen every cell belongs to exactly one window, its separator included |
| Screens.TenColumns | src/frame.c:393-413 | a filled screen with a window of ten columns below another |
| Screens.TooNarrow | src/frame.c:393-413 | an input for which the screen does not stay filled: splitting that window side by side makes its frame 17 columns wide in a column of ten |
| Screens.SevenColumnsWide | src/frame.c:393-413 | an input for which a window has seven columns: a screen of 17 columns split into two columns, the left one into two rows, and the lower of these side by side |
| Arrangements.Apply | src/frame.c:393-477 | one change to a screen: how many windows there are, that all have the room they need and are placed, that resizing or splitting the root fills the screen, and that removing keeps it filled; which window is split or removed, and where the new one comes |
| Arrangements.Arrange | src/frame.c:393-477 | over any run of splits, removals and resizes every window has the room it needs and is where its frame is, their number is exact, and the screen is filled if only removals followed the last resize or split of the root |
| FrameNeeds.UpdateEases | src/frame.c:25-71 | if a frame comes to need no more room, then neither does any frame around it |
| FrameNeeds.WithPartEases | src/frame.c:456-472 | nor does any frame around one that a frame in it takes the place of |
| FramePlans.LessNeedsLess | src/frame.c:25-71 | a frame with one frame less in it needs no more room |
| Serialize.GetSerializeType | src/command/serialize.c:48-61 | double quotes exactly if there is a single quote or a control byte, else single quotes exactly if there is a byte with a meaning |
| Serialize.AppendDquotedArg | src/command/serialize.c:25-46 | appends the double-quoted form of every byte |
| Serialize.AppendEscapedArg | src/command/serialize.c:68-102 | appends the escaped argument in any of the three modes, tilde prefix included |
| Parse.FindEnd | src/command/parse.c:197-252 | the end of the argument or the error, as the recursive scanner gives it |
| Parse.ParseSq | src/command/parse.c:15-21 | reads to the closing quote, or to the end |
| Parse.HexEscape | src/command/parse.c:36-44 | one byte for exactly two hex digits, nothing otherwise |
| Parse.ParseDq | src/command/parse.c:46-86 | appends what the double-quoted string stands for and returns how much it read |
| Parse.ParseCommandArg | src/command/parse.c:150-195 | returns what the argument stands for |
| Parse.ParseCommands | src/command/parse.c:255-287 | returns the arguments of every command, or the first error |
| Quoting.EscapeReads | src/command/serialize.c:31-43 | each byte written in double quotes is read back as that byte |
| Quoting.EscapedReads | src/command/serialize.c:63-102 | an escaped argument, in any mode, is read back exactly and to its end, whatever follows it |
| Quoting.UnescapedTildeReads | src/command/serialize.c:63-102 | with the tilde left unescaped, the prefix is read as the home directory if the reader expands it, and the rest exactly; so it is read as it was exactly if the reader does not expand it or the home directory is ~ |
| Quoting.UnescapedTildeExpands | src/command/serialize.c:63-102 | an input that is then not read as it was: the argument ~/ with / as home directory |
| Quoting.JoinedReads | src/command/parse.c:255-287 | for every list of arguments, escaping each, joining them with spaces and parsing gives that list |
| Quoting.FindEndCut | src/command/parse.c:276-282 | cutting the line at the end of the argument does not change what the argument is |
| Quoting.RestEnds | src/command/parse.c:150-195 | the expander ends exactly where a scanner ends that steps over a variable in braces as one piece |
| Quoting.ArgumentIsRead | src/command/parse.c:197-282 | for every span the scanner chooses, how far the expander reads it, and that it reads it to the end exactly if stepping over braces as one piece ends there |
| Quoting.PlainBracesEnd | src/command/parse.c:106-141 | it does whenever no unescaped quote stands between the braces of a variable |
| Quoting.BracesHideQuotes | src/command/parse.c:106-141 | an input for which it does not: a quote between the braces |
| Reading.LetterMeans | src/command/parse.c:53-66 | what each letter behind a backslash stands for in double quotes |
| Reading.OtherLetterStays | src/command/parse.c:75-79 | any other letter is kept, and so is the backslash |
| Reading.PatternStays | src/command/parse.c:46-85 | double quotes keep any text whose backslashes all stand in front of letters without a meaning |
| Reading.HexMeans | src/command/parse.c:36-44 | \x and two digits in either case stand for that byte; with fewer digits they stand for nothing |
| Reading.UnicodeMeans | src/command/parse.c:23-34 | \u and up to four digits, or \U and up to eight, stand for that code point; without digits for nothing |
| Reading.SingleQuotesKeep | src/command/parse.c:15-21 | single quotes keep everything between them |
| Reading.BackslashTakesMeaning | src/command/parse.c:185-190 | outside of double quotes a backslash keeps any byte behind it |
| Reading.PlainByteStays | src/command/parse.c:167-194 | any byte without a meaning stands for itself; blanks and semicolons end the argument |
| Reading.VariableMeans | src/command/parse.c:127-142 | a dollar sign and a name stand for the variable of exactly that name |
| Reading.BracedVariableMeans | src/command/parse.c:109-125 | so do they with braces around any name; without a name for nothing |
| Reading.DollarAlone | src/command/parse.c:109-142 | an open brace takes everything, a dollar sign without a name stands for nothing |
| Reading.TildeMeans | src/command/parse.c:150-165 | ~/ at the beginning stands for the home directory and /, if the reader expands it |
| Reading.MistakesAreTold | src/command/parse.c:197-253 | which error an open quote or a backslash at the end gives, whatever is in the quotes |
| Reading.SpacedReads | src/command/parse.c:255-287 | any of the four blanks, any number of them, separate arguments; those in front of the first do not matter |
| Reading.ArgumentIsTaken | src/command/parse.c:255-287 | an argument as it is written, in front of a blank, a semicolon or the end, is the next argument |
| Reading.SemicolonSeparates | src/command/parse.c:268-272 | a semicolon ends a command |
| Reading.NulEnds | src/command/parse.c:264-266 | nothing behind a 0 byte is read |
| Reading.WhichQuotes | src/command/serialize.c:48-61 | which bytes make an argument be written in double quotes, and which in single quotes |
| Reading.HowBytesAreWritten | src/command/serialize.c:14-43 | in double quotes, a byte that has a letter is written with it, another control byte in two upper-case digits, any other as it is |
| Macro.MacroRecorder.MergeInsertBuffer | src/command/macro.c:5-23 | typed characters become one command that types them |
| Macro.MacroRecorder.Record | src/command/macro.c:25-35 | a new recording is empty but for text that a cancelled one left behind |
| Macro.MacroRecorder.Stop | src/command/macro.c:37-45 | everything recorded is in the macro, nothing is pending |
| Macro.MacroRecorder.Cancel | src/command/macro.c:47-57 | the previous macro is back; typed text stays pending |
| Macro.MacroRecorder.CommandHook | src/command/macro.c:59-75 | appends a line for exactly this command, behind any typed text |
| Macro.MacroRecorder.SearchHook | src/command/macro.c:77-103 | appends a line for exactly this search, behind any typed text |
| Macro.MacroRecorder.InsertCharHook | src/command/macro.c:105-110 | typing goes on in the event it belongs to |
| Macro.MacroRecorder.InsertTextHook | src/command/macro.c:112-129 | appends a line for exactly this text, behind any typed text |
| Macro.LineReads | src/command/macro.c:59-75 | every recorded line, parsed, is the command and the arguments it was recorded for |
| Macro.WithAllMeansSame | src/command/macro.c:5-23 | merging typed characters does not change the effect of replaying, for any effect in which typing twice is typing both texts |
| Macro.RecordAll | src/command/macro.c:25-129 | a whole recording gives exactly the lines of what was reported, behind what a cancelled recording left |
| Macro.LeftoverShows | src/command/macro.c:47-57 | the macro is that of the reported events alone exactly if nothing was left pending before |
| Macro.ActAll | src/command/macro.c:5-129 | over any run of starts, ends, cancels and reports the recorder is where the state machine of recordings is, and its lines are those of the events there |
| Macro.CancelledText | src/command/macro.c:25-57 | an input for which something is left: typing, cancelling, and recording nothing gives a macro that types |
| Searching.InsertionIsReplayed | src/commands.c:912-925 | the recorded line of typed or pasted text is read as the command that puts in that text, in that way |
| Searching.SearchState.SearchPrev | src/search.h:36-43 | searches once in the other direction and leaves the direction as it was |
| Searching.SearchState.Accept | src/cmdline.c:434-469 | what leaving the search mode does to pattern, history and direction, and what it reports to the recorder |
| Searching.SearchState.CmdSearch | src/commands.c:2101-2174 | what the command does for -n, -p, -r, -H, -x and a pattern |
| Searching.SearchIsReplayed | src/command/macro.c:77-103 | the recorded line does the search that was made, whatever direction there is before; the direction afterwards is the same exactly if a pattern was given or it was forwards |
| Searching.SearchesAreReplayed | src/command/macro.c:77-103 | over any run of searches, changes of direction and search commands, replaying what is recorded makes the same searches in the same order, with the same pattern and history |
| Wrap.ParagraphFormatter.AddWord | src/wrap.c:21-44 | puts the word into the last line if it fits there, else into a new one; text and width agree with the lines |
| Wrap.WrapParagraph | src/wrap.c:127-159 | the text is that of the greedy lines of its words |
| Wrap.FilledIsLayout | src/wrap.c:21-44 | visible words are kept in order and no line of several words is wider than the text width |
| Wrap.ColumnsOfLine | src/wrap.c:21-44 | a line takes as many columns as the formatter counts, whatever the widths of its characters |
| Wrap.LinesFitTheScreen | src/wrap.c:21-44 | no line of several words has more columns than the text width, and a new line begins only where the next word would have |
| Wrap.WrappedLines | src/wrap.c:103-165 | the lines of the wrapped text are exactly the lines that its words were put into |
| Wrap.FewestLines | src/wrap.c:21-44 | no other layout of the same words has fewer lines |
| Wrap.WrappingKeepsWords | src/wrap.c:103-165 | the words of the wrapped text are the words of the text, exactly if no line without width comes before another word |
| Wrap.WrappingAgain | src/wrap.c:103-165 | wrapping twice is wrapping once, for every text |
| Wrap.JoinsInvisible | src/wrap.c:30-37 | an input for which words are lost: a word without width at the start of a line without indentation is joined to the next one |
| Wrap.WordsKeptExactly | src/wrap.c:30-37 | all words are kept exactly if no line without width comes before another word |
| Histories.History.Unlink | src/history.c:26-32 | takes an entry out of the linked list and leaves the others linked in order |
| Histories.History.Push | src/history.c:50-59 | links an entry in behind the last one |
| Histories.History.Recycle | src/history.c:34-41 | takes the oldest entry out of the list and out of the map |
| Histories.History.Append | src/history.c:12-60 | the list becomes: the text removed if it was there, appended, the oldest dropped if over the limit; links and map hold the same entries |
| Histories.History.SearchForward | src/history.c:62-76 | finds the nearest older entry with the prefix, or none if there is none |
| Histories.History.SearchBackward | src/history.c:78-92 | finds the nearest newer entry with the prefix, or none if there is none |
| Histories.HoldsMostRecent | src/history.c:12-60 | after any texts, a bounded history is the end of the unbounded list of different texts in the order of their last use |
| Histories.EnterAll | src/history.c:12-60 | the same for the linked list itself, from the empty history on |
| Convert.AddUtf8Line | src/convert.c:32-53 | the line goes behind everything read so far, into the block if that has room and else into a new one; blocks hold whole lines |
| Convert.FileDecoderReadUtf8 | src/convert.c:67-107 | the blocks hold the lines of the file, stripped of one CR each exactly if the first line ends in one or new buffers have DOS line endings; newline count exact |
| Convert.FixupBlocks | src/load-save.c:60-80 | an empty file still gets a block and an incomplete last line its newline, so that the representation invariant holds |
| Convert.FileEncoder.UnixToDos | src/convert.c:109-142 | writes every line with a DOS line ending, within the buffer, in exactly the size foretold |
| Convert.SaveBlocks | src/load-save.c:314-322 | writing block by block writes the flat text |
| Convert.ToDosSize | src/convert.c:114-118 | the converted text is longer by one byte for each newline |
| Convert.FirstLineDecides | src/convert.c:81-83 | a file is taken to have DOS line endings exactly if its first line ends in a CR |
| Convert.FileIsReadAs | src/convert.c:67-100 | of any lines, mixed ones included: each loses one CR at its end if the first has one there, else all keep their bytes |
| Convert.LastNewlineMayMiss | src/convert.c:54-64 | a newline that is missing at the end makes no difference |
| Convert.EveryFileHasLines | src/convert.c:54-64 | so every file is covered by that |
| Convert.DosIsUndone | src/convert.c:67-142 | reading what was written with DOS line endings gives back the text |
| Convert.UnixIsKept | src/convert.c:67-107 | without DOS line endings a file is read as it is, but for a missing final newline |
| Convert.SaveAndLoad | src/convert.c:67-142 | saving and loading any text gives the same text, and the same line endings, exactly under the conditions given for each, whatever line endings new buffers have |
| Convert.LoneCrIsLost | src/convert.c:67-107 | an input for which the text is not the same: a line that is a CR, with Unix line endings |
| Convert.DefaultWins | src/buffer.c:58-66 | an input for which the line endings are not: any file with Unix ones, if new buffers have DOS ones |
| Convert.SaveThenLoad | src/load-save.c:298-342 | the same for buffers; if the line endings are the same, so are the text and the newline count |

## Left out

- Linked block list: the list of blocks is a sequence and a block pointer is a position in it, so `prev` and `next` links of blocks are not modelled; the blocks themselves are objects changed in place.
- Several views of one buffer: there is one view; `fix_cursors` and saved cursors of other views are not modelled.
- `highlight_line`, heredoc states and `merge_syntax`: the highlighter is an arbitrary total function from a state and a line to a state.
- Characters of several bytes: how long a character at the cursor is, and how wide a character is when wrapping, are parameters; `block_iter_next_char`, `block_iter_prev_char` and the UTF-8 tables are not modelled.
- Commands.TypeChar: the selection, overwrite mode and automatic indentation of `insert_ch` make the edit a replacement, which is modelled by `Commands.ReplaceAt`; which bytes they choose is left open.
- ChangeTrees.ChangeTree.DeleteBytes: requires that an erasure being merged takes one byte or does not have to leave the final newline, because any other would be recorded a byte too late (`Records.ErasureFallsShort`); no command makes one, as what is erased at the end of the text is the final newline alone (`Editors.Erasable`).
- ChangeTrees.ChangeTree.ReplaceBytes: the same, where nothing is inserted.
- Commands.DeleteCh: emulated tabs only decide how many bytes are deleted, which is a parameter; deleting a selection is `Commands.ReplaceAt`, and erasing one `Commands.EraseAllAt`.
- Commands.EraseCh: requires that what is erased is a single newline or contains none, as characters and indentation do.
- Commands.ReplaceChain: which replacements a regular expression finds is a parameter.
- Parse.ParseCommandArg: variable expansion and the encoding of code points are parameters of the reader.
- Parse.ParseCommands: a C string ends at its first 0 byte, which the scanner models; arguments given to the writer may contain 0 bytes here.
- Convert.FileDecoderReadUtf8: other encodings, byte order marks and the longest line are not modelled.
- Wrap.WrapParagraph: finding the paragraph and the selection are not modelled; the result is the text that replaces it.
- Resizing single frames: `resize_to`, stealing space from siblings and `frame_equalize_sizes` are not modelled.
- Screens.Screen.Remove: removing the root frame, after which there is no screen, is not modelled.
- Searching.SearchState.CmdSearch: where a match is found, the word under the cursor, the selection, escaping and the case of patterns are not modelled; a search is the pattern and the direction it is made with.
- Histories.History.Append: the hash map is a map, and reading and writing the history file are not modelled.
- Integer widths: sizes, offsets and counts are unbounded, so overflow of `size_t` and `int` is not modelled; allocation does not fail.
- Redraw ranges, preferred columns, messages, freeing of memory, and `free_changes`.
- Skipping blanks in `block-iter.c`, which moves one byte further than it says.
- Options, tags, completion, locks, terminal output, processes: plumbing without properties of this kind.
