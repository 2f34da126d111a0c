# Verified models of ed, csh and dd

This project models eight components of a 4.3BSD-Reno/Net-2 era source tree in Dafny and proves what
each of them is for. Code that changes data in place is modelled in place: nodes are heap objects with
the source's link fields, loops are loops, and each method's contract ties the new state to a function
of the old one. The functions are the specification; the laws about them are lemmas.

* **The line buffer of ed** (`Rings`, `UndoLog`, `Scratch`, `Lines`, `Editor`, `Commands`). Line nodes
  on a circular doubly linked list, the position cache of `getlp`, the undo stack, marks, and the
  scratch file with its position tracking. The log is a path of changes from the ring there is now to
  the ring there was when the log was reset; each entry of the stack stores one step of it, and the
  links that removed nodes still carry are enough to walk it. `Commands` proves that every command does
  to the heap what a plain function `Step` does to a pair of texts: the text now, and the text undo
  would bring back. Undo exchanges the two.
* **The variable table of csh** (`Names`, `Tables`, `AvlTrees`, `VarCells`, `VarTable`). A height-balanced
  tree with parent links under a header node. A tree value with a zipper-like place describes where a
  walk has got to; the heap is proved to hold that tree at every step, through rotations, through the
  walk up that insertion and deletion share, and through the deletion that copies a predecessor.
* **The record converters of dd** (`Records`, `Copier`). Reads of any size, writes that may be short,
  and the state carried between them, in buffers of exactly the sizes `setup` allocates. Output is
  always a plain function of all the input.
* **The command parser of csh** (`Grammar`, `Parser`, `RoundTrip`, `Printer`, `Reparsing`). The levels
  of the grammar as functions, the recursive parser with its loops over a range of words refining them,
  and the printer used for the job list, with the round trip between them in both directions.
* **The job table of csh** (`Jobs`, `JobTable`). Process records on a list and in rings of friends, with
  current and previous job, job numbers, flushing and reaping, under any run of events.
* **The allocator of csh** (`Buckets`, `Allocator`). Power-of-two buckets with free lists kept in the
  memory itself, and the bytes of the headers that tell free blocks from those in use.
* **The cipher stream of ed** (`CipherBlocks`, `Cipher`). Cipher block chaining (section 3 of FIPS PUB
  81) over any bijection on eight-byte blocks, with the length byte in the last block.
* **The expression evaluator of csh** (`Numbers`, `Expressions`, `Evaluator`). One cursor moved by
  mutually recursive levels, evaluating or only skimming.

`dafny verify dfyconfig.toml` checks everything.

## What the code does that its comments do not say

* `getaddr` reports a node that is not in the buffer as an error, except that with an empty buffer it
  answers 0 (`Editor.Buffer.GetAddr`, `Editor.Buffer.GetMark`).
* `join` deletes the old lines before it finds that the joined line is too long to store
  (`Editor.Buffer.Join`); undo brings them back, as after any other command.
* `puttxt` allocates a node before it finds a line too long to store, and then neither uses nor frees
  it. So after `ureset` the nodes allocated are those of the buffer and one more for each such line
  there ever was (`Editor.Buffer.UReset`, `Commands.DoCmd`); exactly the buffer's if there was none.
* The evaluator's parse-only mode still reads words that a shift, `!`, `~` or a level above needs as
  numbers, so `1 || abc` is an error although it means 1 (`Expressions.SkimmedWord`). Evaluation gives
  the meaning exactly when there is no such word in what is skipped, or when the meaning is the same
  error (`Expressions.EvalMeans`).
* The operators `==` and `!=` compare texts, as the manual says, so `03 == 3` is false
  (`Expressions.LeadingZero`); they agree with the numbers exactly when the same number does not stand
  there in two ways (`Expressions.TextsAsNumbers`). The manual also says that a number with a leading
  zero is octal (bin/csh/csh.1:972); the code reads it as decimal.
* An empty command before the end of a parenthesis is written as a separator after its beginning, which
  does not parse: `( a ; )` is written as `( ; a )` (`Reparsing.EmptyInside`). That is the only way in
  which writing out a command of ordinary words and parsing it again can fail (`Reparsing.Reparse`).
* Only tidy text survives blocking and unblocking, and only newline-free data that fills its records
  survives the other way round: both laws are exact (`Records.UnblockBlock`, `Records.BlockUnblock`).
* `free` tells a block in use from one freed already by the first byte of its header, where the link of
  a free block has a byte that is never the magic number, because links are multiples of 8 and the low
  byte comes first (`Allocator.Heap.HeaderOf`).

## Model

| member | source | states |
|---|---|---|
| `Rings.RingCut` | bin/ed/ed.h:164-165 | linking the node before a run to the node after it leaves a ring of the other nodes, in order |
| `Rings.RingSplice` | bin/ed/ed.h:164-171 | linking a chain in between two neighbours of a ring gives the ring with the chain at that place |
| `Rings.CutInverse` | bin/ed/ed.c:1853-1871 | relinking a run that was cut out, from the links it still carries, restores exactly the old links |
| `Rings.SpliceInverse` | bin/ed/ed.c:1853-1871 | cutting a run out again restores exactly the links there were before it was spliced in |
| `UndoLog.UndoStep` | bin/ed/ed.c:1853-1871 | undoing any change (added, deleted or moved run) gives the ring before it, and links from which the opposite change can be undone back to the very same links |
| `UndoLog.Push` | bin/ed/ed.c:1798-1830 | doing a change and logging it keeps the whole log a path back to the ring of the last reset |
| `UndoLog.UndoLast` | bin/ed/ed.c:1853-1885 | each undone entry extends the path the other way, so that after all of them the reversed log leads back to where undo started |
| `UndoLog.StoresInverse` | bin/ed/ed.c:1876-1885 | toggling and reversing the stack entries of a change gives the entries of its inverse |
| `UndoLog.DeadOffRing` | bin/ed/ed.c:1892-1909 | a run that the log has as deleted shares no node with the buffer, however often undo was run |
| `UndoLog.DeadRunsApart` | bin/ed/ed.c:1892-1909 | no node is in two deleted runs of the log, so none is freed twice |
| `UndoLog.Accounting` | bin/ed/ed.c:1892-1909 | the buffer's nodes and the deleted ones are together exactly the old buffer's and the added ones |
| `Scratch.ScratchFile.GetText` | bin/ed/buf.c:63-90 | reads the text a line's offset and length name, and keeps the tracked position that of the file |
| `Scratch.ScratchFile.PutText` | bin/ed/buf.c:99-141 | appends a text after all earlier ones, wherever the file was read last, and answers its offset |
| `Editor.Buffer.GetLp` | bin/ed/buf.c:178-205 | the node of line n, from a cache that every edit leaves at its own number |
| `Editor.Buffer.GetAddr` | bin/ed/buf.c:160-173 | the number of a node in the buffer; of another an error, or 0 when the buffer is empty |
| `Editor.Buffer.LpQueue` | bin/ed/buf.c:146-155 | a node goes in after the current line, and line count, current line and cache follow |
| `Editor.Buffer.PutTxt` | bin/ed/buf.c:99-141 | a line is stored and its node linked in after the current line; a line that is too long changes nothing but that a node is lost |
| `Editor.Buffer.UPush` | bin/ed/ed.c:1798-1830 | a stack entry holds the nodes of its two lines |
| `Editor.Buffer.Append` | bin/ed/ed.c:1249-1293 | the lines that are not too long go in after line n, the current line is the last of them, and it fails at the first that is too long |
| `Editor.Buffer.LnDelete` | bin/ed/ed.c:1524-1541 | the lines go, the current line is as the source sets it, and the log can bring them back |
| `Editor.Buffer.Join` | bin/ed/ed.c:1404-1438 | the lines become one, or, if it is too long, go |
| `Editor.Buffer.Subst` | bin/ed/ed.c:1298-1344 | each matching line is replaced by the lines the substitution makes of it; current line, and error if nothing matched outside a global command |
| `Editor.Buffer.Move` | bin/ed/ed.c:1442-1476 | the permutation that takes lines line1..line2 to after num, with the current line on the last moved, and marks of a global command cleared |
| `Editor.Buffer.Transfer` | bin/ed/ed.c:1480-1520 | a contiguous copy of the original lines goes in after num, even when num is inside the range copied |
| `Editor.Buffer.Undo` | bin/ed/ed.c:1841-1888 | exchanges the buffer, current line and line count with those saved, and leaves the reversed log |
| `Editor.Buffer.UReset` | bin/ed/ed.c:1893-1909 | what stays allocated is exactly the buffer and the nodes lost to lines too long to store; nothing is freed twice; a mark on a freed line is cleared, others stay |
| `Editor.Buffer.ClrMark` | bin/ed/ed.c:1948-1959 | every mark on a line is cleared and counted off |
| `Editor.Buffer.PutMark` | bin/ed/ed.c:1932-1943 | sets one mark and keeps the count of marks |
| `Editor.Buffer.GetMark` | bin/ed/ed.c:1919-1927 | the number of the marked line, an error if there is none |
| `Editor.Buffer.MarkLines` | bin/ed/ed.c:420-458 | exactly the lines of the range that the pattern picks carry the mark |
| `Editor.Buffer.FindActive` | bin/ed/ed.c:485-491 | the first line that carries the mark |
| `Commands.DoCmd` | bin/ed/ed.c:586-1025 | every editing command does to the buffer and its undo log what `Step` does to the text now and the text undo would bring back, errors included; a node is lost if and only if the command met a line too long to store |
| `Commands.RunKeepsBack` | bin/ed/ed.c:1841-1888 | no run of commands but undo changes what undo would bring back |
| `Commands.RunThenUndo` | bin/ed/ed.c:1841-1888 | undo after any run of commands restores lines and current line of the last reset; a second undo would bring back those after the run; as many nodes are lost as lines were too long |
| `Commands.DoGlob` | bin/ed/ed.c:464-533 | the outer loop ends: no command gives a line the mark, so each round leaves fewer; on success no line is marked; undo takes the whole back |
| `Names.CompareTotal` | bin/csh/set.c:449-451 | name comparison is zero only for equal names, and changes sign with its arguments |
| `Names.LessTransitive` | bin/csh/set.c:449-451 | the order of names is transitive |
| `AvlTrees.RebalanceBalanced` | bin/csh/set.c:700-792 | whether a subtree has grown or shrunk by one, stopping where the source stops leaves every factor right height minus left height, within one |
| `AvlTrees.RebalancePairs` | bin/csh/set.c:700-792 | rebalancing changes neither names nor values nor their order |
| `AvlTrees.PredecessorOut` | bin/csh/set.c:585-597 | copying the predecessor up and taking it out leaves the other variables in order |
| `VarCells.RotAt` | bin/csh/set.c:664-675 | the assignments of a rotation, with the link from above, turn the heap's tree into the rotated one, parent links included |
| `VarTable.Table.Balance` | bin/csh/set.c:700-792 | the loop leaves in the heap exactly the rebalanced tree |
| `VarTable.Table.Find` | bin/csh/set.c:443-457 | finds the node of a name just when the table has it, with its words |
| `VarTable.Table.SetQ` | bin/csh/set.c:497-522 | the map with the name bound to the trimmed words; one new node if the name is new, none else |
| `VarTable.Table.UnsetV1` | bin/csh/set.c:570-609 | the map without the name, the other pairs in order, exactly one node freed |
| `VarTable.Table.Madrof` | bin/csh/set.c:427-440 | the first variable in order that the pattern matches; null just when none does |
| `VarTable.Table.Unset1` | bin/csh/set.c:542-556 | terminates, removes exactly the names some pattern matches, and remembers the last pattern that matched none |
| `VarTable.Table.PList` | bin/csh/set.c:795-829 | visits each variable once, in increasing order of names |
| `VarTable.Table.Run` | bin/csh/set.c:497-609 | any run of changes keeps search order, balance factors, links and parent links, and does what it would do to a map |
| `Tables.WithoutAllAsMap` | bin/csh/set.c:542-556 | what is left after all patterns is, as a map, what none of them matches |
| `Records.BlockConcat` | bin/dd/conv.c:99-180 | whole lines convert apart from what follows them |
| `Records.UnblockConcat` | bin/dd/conv.c:210-240 | whole records convert apart from what follows them |
| `Records.UnblockBlock` | bin/dd/conv.c:99-260 | unblocking the blocked form gives the text back if and only if every line has its newline, fits and has no trailing blank |
| `Records.BlockUnblock` | bin/dd/conv.c:99-260 | blocking the unblocked form gives the data back if and only if it fills its records and has no newline |
| `Records.BlockClean` | bin/dd/conv.c:99-200 | blocked data has no newline and fills a number of records |
| `Copier.Copy.DdOut` | bin/dd/dd.c:324-381 | whatever the write sizes, what is written and what is still held are together what was there; unforced, whole blocks are written |
| `Copier.Copy.ConvDef` | bin/dd/conv.c:56-81 | the single buffer of ibs + obs - 1 bytes suffices, and output is the input, translated |
| `Copier.Copy.ConvBlock` | bin/dd/conv.c:99-180 | after any read the finished lines are records, and the rest, or the state of truncation, is carried over |
| `Copier.Copy.ConvUnblock` | bin/dd/conv.c:210-240 | after any read the whole records are lines, and the rest is carried over; output fits obs + cbsz bytes |
| `Copier.Copy.DdIn` | bin/dd/dd.c:212-304 | reads until the end or the count of blocks |
| `Copier.Copy.DdClose` | bin/dd/dd.c:311-321 | everything is converted and written |
| `Copier.Dd` | bin/dd/dd.c:80-381 | what is written is the conversion of all that was read, for every split into reads and every pattern of short writes, and is counted |
| `Grammar.FillParens` | bin/csh/parse.c:571-650 | in a nested range both parentheses of a command are found, or neither |
| `Parser.ScanAmp` | bin/csh/parse.c:256-305 | the first lone & outside parentheses, or too many parentheses |
| `Parser.CountWords` | bin/csh/parse.c:527-563 | the count of the first pass, which is never negative |
| `Parser.Gather` | bin/csh/parse.c:571-650 | the second pass never stores more words than were counted, leaves room for the null, and gathers what the grammar says |
| `Parser.Syn3` | bin/csh/parse.c:489-665 | a simple command or one in parentheses, as the grammar has it |
| `Parser.Syn0` | bin/csh/parse.c:248-308 | as the grammar has it, terminating by range length and level |
| `Parser.Syntax` | bin/csh/parse.c:229-240 | the whole parser refines the grammar, and terminates on every word list |
| `RoundTrip.WordsFind` | bin/csh/parse.c:316-476 | a written tree has no separator outside parentheses that binds looser than it does |
| `RoundTrip.NoAmpFound` | bin/csh/parse.c:256-305 | words whose & belong to redirections have none that puts a command in the background |
| `RoundTrip.Back` | bin/csh/parse.c:228-665 | the words a normal tree is written as parse to that tree, up to the mark of last commands and empty commands, if and only if no parentheses begin with an empty command |
| `Printer.CommandLine.Padd` | bin/csh/proc.c:500-556 | appends the words of a tree |
| `Printer.ReadBack` | bin/csh/proc.c:500-556 | a normal tree written out and read back is the same tree, if it is readable, and else an error |
| `Reparsing.NormalSyntax` | bin/csh/parse.c:228-665 | whatever ordinary words parse to is normal |
| `Reparsing.Reparse` | bin/csh/parse.c:228-665 | a command that was parsed, written out and parsed again is the same without its empty commands if and only if none of these begins a parenthesis, and else an error |
| `Reparsing.EmptyInside` | bin/csh/parse.c:310-345 | `( a ; )` is parsed to a tree that is written as `( ; a )`, which is an error |
| `Jobs.FlushedTable` | bin/csh/proc.c:393-396 | flushing a job leaves every ring wholly live or wholly flushed, and numbers distinct |
| `Jobs.NewFriend` | bin/csh/proc.c:453-461 | a process put after the last friend of a job makes the ring one longer and keeps the table |
| `Jobs.NewJob` | bin/csh/proc.c:462-492 | a process with a fresh number and a free index is a job of its own |
| `Jobs.AllUsed` | bin/csh/proc.c:476-488 | if all indexes below n are in use there are at least n - 1 jobs |
| `Jobs.JobFlagsTurned` | bin/csh/proc.c:130-139 | the flags of a job together do not depend on which process the loop starts at |
| `JobTable.GotCurr` | bin/csh/proc.c:1121-1136 | what is chosen is a live leader other than both excluded; null only if there is none |
| `JobTable.ClearedCurrents` | bin/csh/proc.c:407-422 | after clearing a job, current and previous job are still distinct live leaders and neither is that job |
| `JobTable.OthersAlone` | bin/csh/proc.c:80-194 | one report of wait changes nothing of the processes of other jobs |
| `JobTable.StoppedOrDone` | bin/csh/proc.c:154-168 | once no process of a job runs, a stopped job is the current one, and a finished one is neither current nor previous |
| `JobTable.Table.PGetCurr` | bin/csh/proc.c:1121-1136 | the first stopped job of the list that is eligible, else the first |
| `JobTable.Table.PClrCurr` | bin/csh/proc.c:407-422 | a job is neither current nor previous, whatever it was |
| `JobTable.Table.PFlush` | bin/csh/proc.c:373-400 | a whole job is flushed, and the largest index is found again; flushing twice changes nothing |
| `JobTable.Table.NewIndex` | bin/csh/proc.c:473-488 | a free index: one more than the largest if that is below 9, else the least free from 1 on; at most the larger of 9 and the number of jobs plus one |
| `JobTable.Table.PAlloc` | bin/csh/proc.c:434-497 | a new process joins the job being made up or starts one, which takes the place of a current or previous job that is not there |
| `JobTable.Table.PChild` | bin/csh/proc.c:80-194 | what one report of wait does: the process's state, and once its job does not run, current job, flush or note |
| `JobTable.Table.PStart` | bin/csh/proc.c:1022-1051 | a job's running and stopped processes go on, in the foreground or background |
| `JobTable.Table.PWait` | bin/csh/proc.c:221-242 | exactly the flushed records are freed; the others, their order and the current jobs stay |
| `JobTable.Table.PNote` | bin/csh/proc.c:197-214 | each process that needs a note is told of, in order, and its job flushed if it is done; afterwards none needs a note |
| `JobTable.Table.PFind` | bin/csh/proc.c:1081-1088 | the one live job with an index, if there is one |
| `JobTable.Table.Run` | bin/csh/proc.c:80-497 | any run of events goes from table to table as `Next` says, and each on the way is sound: distinct current leaders, one state flag each, rings wholly live or flushed, distinct numbers |
| `JobTable.Table.InEveryState` | bin/csh/proc.h:93-102 | in every state: current and previous distinct leaders, rings wholly live or flushed with one leader, one state flag each, distinct indexes with their largest |
| `Buckets.Bucket` | bin/csh/alloc.c:165-170 | the least bucket whose blocks hold the bytes |
| `Allocator.LaidMore` | bin/csh/alloc.c:240-266 | blocks carved out of new memory are aligned, inside it, and overlap neither each other nor older ones |
| `Allocator.Heap.Morecore` | bin/csh/alloc.c:216-267 | the bucket has free blocks, all new ones are of it, and older blocks stay |
| `Allocator.Heap.Malloc` | bin/csh/alloc.c:151-209 | a block not in use, of the least bucket that holds header and request: the one of that bucket given back last, if there is one |
| `Allocator.Heap.HeaderOf` | bin/csh/alloc.c:76-104 | the first byte of a block's header is the magic number if and only if the block is in use, and then the second is its bucket |
| `Allocator.Heap.Free` | bin/csh/alloc.c:276-307 | a block in use goes to the front of its bucket's list; the null pointer, an address outside the memory got, and a block that is free already are refused |
| `Allocator.Heap.Run` | bin/csh/alloc.c:151-307 | after any run of requests and releases, double releases included, what is in use is exactly what the client got and did not release |
| `Allocator.Heap.InEveryState` | bin/csh/alloc.c:113-130 | blocks are pairwise disjoint, aligned and inside the memory got; each is free or in use; counts agree |
| `CipherBlocks.UnchainChain` | bin/ed/cbc.c:360-434 | deciphering a chain of blocks gives the blocks back, for any cipher with an inverse |
| `CipherBlocks.RoundTrip` | bin/ed/cbc.c:147-434 | reading gives back what was written, ended properly, and the ciphertext has len + 8 - len % 8 bytes |
| `Cipher.Stream.DesPutC` | bin/ed/cbc.c:162-173 | all but the buffered characters are written as whole chained blocks |
| `Cipher.Stream.DesFlush` | bin/ed/cbc.c:177-187 | the file is the ciphertext of all characters put, with its last block |
| `Cipher.Stream.CbcDec` | bin/ed/cbc.c:398-434 | the next block deciphered and how much of it counts, or the end, with an error for a partial or corrupt block |
| `Cipher.Stream.DesGetC` | bin/ed/cbc.c:148-158 | the next character of what the file shows, or the end |
| `Cipher.ThereAndBack` | bin/ed/cbc.c:129-187 | a text put and got again from zero vectors is the same, whatever the padding bytes |
| `Numbers.EgetnPutn` | bin/csh/set.c:350-413 | writing any 32-bit number, the least included, and reading it back gives it |
| `Expressions.SkimFails` | bin/csh/exp.c:94-457 | an expression can be skimmed if and only if every word that ought to be a number is one; else its error is that of the first that is not |
| `Expressions.SkimNeverDivides` | bin/csh/exp.c:371-415 | what is only skimmed never fails by a division |
| `Expressions.EvaluatedSkims` | bin/csh/exp.c:94-457 | what can be evaluated can be skimmed |
| `Expressions.EvalIs` | bin/csh/exp.c:94-457 | evaluation comes to the value the right-nested tree means, with short-circuit or and and, or to the first error met where the value did not matter |
| `Expressions.EvalMeans` | bin/csh/exp.c:94-457 | evaluation gives the meaning if and only if there was no such error, or the meaning is the same error |
| `Expressions.ShortCircuit` | bin/csh/exp.c:94-140 | or and and of two sides that are worth what they mean are too, if and only if a side that is skipped can be skimmed |
| `Expressions.NumbersMean` | bin/csh/exp.c:94-457 | an expression all of whose words are numbers is worth what it means |
| `Expressions.SkimmedWord` | bin/csh/exp.c:94-115 | an input on which evaluation and meaning differ: 1, or, abc |
| `Expressions.TextsAsNumbers` | bin/csh/exp.c:209-255 | comparing two numbers as texts tells whether they are the same number if and only if the same number is not written in two ways; what was worked out never is |
| `Expressions.LeadingZero` | bin/csh/exp.c:209-255 | a number with a zero in front is not equal to the number, as with 03 and 3 |
| `Evaluator.Evaluation.Exp0` | bin/csh/exp.c:95-115 | evaluates or skims the tree of its words and uses exactly those |
| `Evaluator.Evaluation.Exp5` | bin/csh/exp.c:371-415 | products and quotients grouped from the right; no division when skimming |
| `Evaluator.Evaluation.Exp6` | bin/csh/exp.c:418-594 | an operand, a command in braces or a file inquiry, which are not made when skimming, or nothing where an operator stands |
| `Evaluator.Exp` | bin/csh/exp.c:88-92 | for every list of words: an error if they make no tree, else what its tree comes to, and the words of the tree are used |
| `Evaluator.Skim` | bin/csh/exp.c:94-457 | skimming uses the words evaluating uses, never divides, and succeeds if and only if every word that ought to be a number is one |

## Left out

* ed: regular expressions (a substitution and a pattern are any functions of a line's text), address
  parsing, the interactive global commands, reading and writing files, prompts, the modified flag,
  signals and their deferral, scratch-file errors and lack of memory.
* csh variables: globbing of names (a pattern is any predicate on names), word arithmetic on single
  elements of a variable, and the special variables that set other state.
* dd: `swab`, `sync`, `noerror`, `bs` with unbuffered output, tapes, seeking, `files`, the count of
  truncated records (it depends on how the input is split), and conversion tables together with
  records; a write is taken to accept at least one byte.
* csh parser: alias expansion; what the original goes on to do after its first error, before it throws
  the tree away; in the round trips also &, `|&`, keyword commands and the mark for overwriting, and the
  printer's spaces and its limit of 80 characters.
* csh jobs: terminals, process groups and timing; saving the current job around backquotes and braces;
  printing. Fork is taken to give a number that is not in the table, and wait to report only processes
  that run or are stopped.
* csh allocator: `realloc`, a failing sbrk, and anyone else calling sbrk; addresses do not wrap around.
- Allocator.Heap.Free: an address between the bottom and the top of memory has to be that of a block; what the code makes of another depends on what its owner wrote there.
- Allocator.Heap.Morecore: for the two largest buckets the code works out 1 << 31 and 1 << 32 as an int (bin/csh/alloc.c:244); the model gets the memory.
* cipher: keys, and the editor's use of -1 for both the end and the byte 0xFF; a file that is appended to.
* csh expressions: the effects of commands in braces (whether one succeeds, what a file inquiry answers
  and which words name files are any functions of the place where they stand), globbing of operands;
  shifts by counts out of range are whatever the machine makes of them.
