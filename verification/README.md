# Operating-systems labs: verified models

Five of the lab programs contain a small state machine whose correctness is not visible in
any single function. This project models each of them against an abstract environment (a
file tree, a byte file, a descriptor table, a mutex) and proves what the program is for.

- **The directory walk (lab_02).** `doPath` and `ftw` walk a tree with a hand-written linked
  list as a stack, `chdir`, and `".."` markers that undo the `chdir`. The list is modelled with
  its heap cells; the loop is proved to make exactly the calls of a recursive preorder walk, and
  that walk is proved to visit every reachable node once, in order, from the right directory.
  Every node has its own failure flags for `lstat`, `opendir` and `chdir`.
- **The maps scanner and the pagemap decoder (lab_04/part1).** The in-place scanner is modelled
  for any bytes at all, with a scan that leaves the buffer and a sweep that never ends as
  outcomes of their own. It is proved to leave its buffer unchanged, to recover every rendered
  line (64-bit range and name), and to do so around lines that a read cuts under an exact
  condition. The page sweep is proved to ask for every mapped page once, and it is shown exactly
  when its 64-bit loop ends. The short-read loop and the bit fields are modelled on `bv64`.
- **The fortune buffers (lab_04/part2).** Both byte buffers refine a list of NUL-terminated
  segments with a cursor. They wrap differently: `fortune.c` rotates with period n,
  `seqfile.c` with period n + 1.
- **Shared offsets, streams and threads (lab_05).** Two stdio streams over one descriptor
  (section 7.21.5.6 of ISO C11, XSH section 2.5.1 of POSIX.1-2017), the same under two threads,
  and two mutex protocols. A schedule is any sequence of steps of the two threads; the results
  hold for every file, every buffer size and every schedule.
- **The select server (lab_08/part2).** The slot table, the watch set and the life of each
  descriptor, for any behaviour of `select`, `accept`, `recv` and `send`.

Code that updates state in place is a class or a method over arrays, proved against functions
on values; the lemmas about those functions say what the source promises.

Some things the sources suggest turn out not to hold. For each, the exact condition is proved,
and there is an input or a run of operations that gets there:

- `printStat` divides by zero after a first walk exactly when `lstat` fails on the start
  directory (`Walker.Process.Ftw`, `Totals.ZeroTotal`, reached in `WalkWithoutLstat`).
- The room check of both fortune modules admits records that do not fit (`RoomCheck`, reached in
  `FirstWriteOverruns`). The models stop at the first of them; that the check admits every
  length at a write index of `MAX + 2` is a fact about its arithmetic only.
- The read index of `fortune.c` is a segment's start or the write index after every operation
  but one: an empty write moves it inside the last segment when it was at the end, and leaves it
  inside a segment when it was there (`BoundaryStep`, `OnBoundary`, `ZeroLengthWrite`, reached in
  `EmptyWriteReadsInside`). A run without empty writes never gets there (`BoundaryKept`).
- A read of `fortune.c` ends in a newline exactly when the text is shorter than `MAX - 1`
  (`Fortune.Module.Read`, missed in `NewlineLost`).
- Shows of `seqfile.c` bring the read index to a segment's start exactly when the text at the
  index and every segment passed on the way are not empty and, if the way leads round the end,
  the buffer has a byte left (`CursorReaches`). An empty segment blocks the way
  (`LeadingNulBlocks`, reached in `LeadingNulHolds`), and so does an empty write at the end, with
  no segment empty (`EmptyWriteHolds`).
- `strlen` in `seqfile.c` starts past the buffer's end exactly when the buffer is full and the
  cursor is at its end (`ShowInBounds`, reached in `FullBufferOverruns`).
- When reads cut lines, the whole lines between two cuts are found exactly when the scan of the
  first cut line's rest stays in the buffer and the sweep of what it is taken for ends, or there
  is no rest but the newline (`CutChunk`). The cut lines themselves are lost, and a rest without
  a dash is taken for a mapping that ends where the next line's does (`HeadMisread`).
- The server serves a new client exactly when a slot is free; any other stays open and is never
  watched (`ServedForEver`, `LostStayLost`, reached in `LaterClientsLost`).
- The "right" thread program still lets main's first newline land anywhere in the first copy
  (`EveryScheduleKeepsCopiesApart`, `EveryOutcomeHappens`).

A sweep of a range whose last page touches the end of the 64-bit space would never end
(`WrapMeansForever`). No line of a real maps file is such a range, because mappings are
page-aligned (`AlignedNoWrap`).

## Model

| member | source | states |
|---|---|---|
| NodeStack.Node.constructor | lab_02/lib/stack.c:12-27 | `create_node`: a detached cell holding the given name and depth |
| NodeStack.Stack.Push | lab_02/lib/stack.c:31-57 | appends a fresh copy at the tail and moves no other cell; the chain stays acyclic; one more cell created, none freed |
| NodeStack.Stack.Pop | lab_02/lib/stack.c:60-90 | null exactly on the empty list; otherwise removes the tail cell and returns a fresh copy of it that is not part of the list; cells created minus freed stay equal to the length |
| NodeStack.Stack.IsEmpty | lab_02/lib/stack.c:5-8 | true exactly when the list stores nothing |
| FileTree.SplitCons | lab_02/main.c:130 | a path's components end at its slashes |
| FileTree.ResolveSpecial | lab_02/main.c:32-34 | "." is the directory itself, ".." the one above, and above the root is the root |
| FileTree.ResolveNames | lab_02/main.c:130 | a relative path of any names leads down from the working directory, an absolute one from the root |
| FileTree.FollowComponents | lab_02/main.c:130 | empty components and "." change nothing anywhere in a path, and a name followed by ".." neither |
| FileTree.JoinShape | lab_02/main.c:143 | getcwd reports a slash before every name, and a single slash for the root |
| FileTree.ResolveJoin | lab_02/main.c:138-152 | the absolute path getcwd reports, parsed as a path, leads back to the same directory from any working directory; this is what makes the start entry's name valid |
| FileTree.FindChildAt | lab_02/main.c:98-107 | in a listing without duplicate names, looking a name up finds the very entry it was read from |
| FileTree.AtChild | lab_02/main.c:75-107 | a child's path, one name below its directory's path, leads to that child |
| WalkSpec.LeaveStep | lab_02/main.c:75-93 | entering a directory and pushing its marker: the process will come back to where the rest of the stack expects it, and what is left to call is the directory's walk and then the rest |
| WalkSpec.VisitsAre | lab_02/main.c:98-108 | the entries pushed for a listing are its children, each under its own name and in readdir order; "." and ".." push nothing |
| WalkSpec.PushListing | lab_02/main.c:98-108 | pushing a listing adds exactly the walk of its children in reverse readdir order to the pending work, keeps every pending name resolvable from the directory in force at its turn and every depth equal to the number of markers below it |
| WalkSpec.OpenStep | lab_02/main.c:61-108 | visiting a directory that opens makes one call, trades the entry for its marker and children, keeps the final directory, and lowers the weight of the pending work by one |
| Walker.TaskStep | lab_02/main.c:154-159 | one turn of the loop, on any pending entry: the pending work stays consistent with the working directory, calls made plus calls pending stay the goal, the final directory stays the same, and the weight strictly falls |
| Walker.Process.ReadListing | lab_02/main.c:88-108 | pushes the marker and then every entry but "." and "..", in readdir order |
| Walker.Process.DoPath | lab_02/main.c:30-124 | a marker only changes the directory, if the one named can be entered; a name that is missing or on which lstat fails changes nothing and gives -1; a file gives one call; a directory one call, and then -1 with the working directory and the stack as they were if opendir or chdir fails, and otherwise the new working directory with its marker and listing pushed, and -1 only if closedir fails |
| Walker.Process.Iterate | lab_02/main.c:154-159 | the loop, which works one entry behind its pop: processing the current entry and popping re-establishes the state over the duplicate of the start entry, and the stack is empty exactly when no work is left |
| Walker.Process.RunLoop | lab_02/main.c:154-159 | the loop ends with exactly the goal's calls made, in order, the stack empty, and the process in the directory the walk must end in; the sentinel start entry is never visited again |
| Walker.Process.Ftw | lab_02/main.c:127-165 | for every well-formed tree and failure pattern: failure with nothing called exactly if the start is no directory that can be entered or getcwd fails; otherwise the calls are the recursive walk's ("." being the walk of the working directory itself), every list cell is freed, the process ends in the start's parent if the start opened and that parent can be entered (else in the start), the total is the number of calls on counted types, each of the seven rows is the truncated percentage of the calls on its own file type, printing is undefined exactly on a zero total or a product that overflows int, and after a first walk the total is zero exactly when lstat fails on the start |
| Walker.WalkWithoutLstat | lab_02/lib/statistics.c:4-19 | a run that reaches the division by zero: a directory that can be entered and on which lstat fails |
| WalkTheorems.WalkMeaning | lab_02/main.c:30-159 | the calls of a walk are exactly the reached nodes, each once, ancestors before descendants and later-listed siblings first, each with its depth and type and made from the directory that lists it |
| WalkTheorems.WalkComplete | lab_02/main.c:95-108 | every node below the start whose ancestors all opened and whose lstat works is visited |
| WalkTheorems.WalkGood | lab_02/main.c:46-62 | every call is on a reached node, at its depth, with its type, from its parent directory |
| WalkTheorems.WalkOrdered | lab_02/main.c:30-124 | calls come in preorder with the children of a directory in reverse readdir order |
| WalkTheorems.NothingBelow | lab_02/main.c:46-82 | no call is made below a directory on which lstat, opendir or chdir fails, nor below anything that is no directory |
| Totals.CountPlaces | lab_02/lib/statistics.c:46-69 | what is counted for a type is the number of places in the log that hold a call on a node of that type |
| Walker.Process.SumIsCalls | lab_02/lib/statistics.c:13-19 | in every state the sum of the counters is the number of calls made, less those on nodes of a type without a counter |
| Totals.ZeroTotal | lab_02/lib/statistics.c:4-7 | of the calls a walk makes, none is on a counted type if and only if lstat fails on the start directory |
| Statistics.Stats.IncStat | lab_02/lib/statistics.c:46-69 | exactly the counter of the given type rises by one; none does for a directory or an unknown type |
| Statistics.Stats.PrintStat | lab_02/lib/statistics.c:11-43 | stores the sum of the counters; prints, row by row, the truncated percentage of each counter, seven that add up to between 94 and 100, exactly when the total is not zero and no product overflows int |
| Statistics.PercentTotal | lab_02/lib/statistics.c:4-19 | seven truncated percentages of a whole add up to between 94 and 100, and to 100 if and only if nothing was truncated |
| Pagemap.RepackDecode | lab_04/part1/lib/output_funcs.c:33-37 | every field has its width, and the fields put back at bits 0, 55, 61, 62 and 63 restore bits 0-55 and 61-63 of every word |
| Pagemap.WordBytes | lab_04/part1/lib/output_funcs.c:22-27 | the assembled little-endian word holds each byte read at its own position |
| Pagemap.Pread | lab_04/part1/lib/output_funcs.c:26-27 | the environment: an error, end of file, or any positive number of the bytes asked for |
| Pagemap.ReadWord | lab_04/part1/lib/output_funcs.c:24-32 | for every pattern of short reads the loop ends, and has assembled the eight bytes in order exactly when all of them can be read |
| Pagemap.PagemapGetEntry | lab_04/part1/lib/output_funcs.c:18-39 | for every pattern of short reads it ends, succeeds if and only if the eight bytes at 8 * (vaddr / page) exist and can be read, and then returns the decoding of these bytes |
| Pagemap.EntryOfWords | lab_04/part1/lib/output_funcs.c:26-27 | on a file of n eight-byte words it succeeds exactly for the first n pages, with the entry of the word that has the page's number |
| Pagemap.VirtToPhysUser | lab_04/part1/lib/output_funcs.c:42-59 | fails exactly when the file is missing or the entry cannot be read; the address it builds keeps vaddr's in-page offset |
| Pagemap.PhysicalAddressMeaning | lab_04/part1/lib/output_funcs.c:57 | in 64-bit arithmetic the offset always survives, and the frame number up to multiples of 2^64 / page, so if and only if it is below that |
| MapsFormat.Hex8RoundTrip | lab_04/part1/lib/output_funcs.c:113-136 | reading back the digits that "%08lx" prints gives the printed value, for every value |
| MapsFormat.HexDigitIs | lab_04/part1/lib/output_funcs.c:116-119 | the sixteen digits, in order |
| MapsFormat.Hex8Shape | lab_04/part1/lib/output_funcs.c:113-136 | a number below 2^32 has exactly eight digits, a larger one more and no leading zero |
| MapsFormat.RenderIs | lab_04/part1/lib/output_funcs.c:106-147 | a line is the two numbers with a dash between them, four fields each after a blank, one more blank, padding, the name and a newline |
| MapsFormat.FieldLayout | lab_04/part1/lib/output_funcs.c:138-141 | rendered fields lie between single blanks with no blank inside, in order, and the rest follows the last blank |
| MapsFormat.LayoutFacts | lab_04/part1/lib/output_funcs.c:110-144 | a rendered line standing anywhere in a buffer has its two hexadecimal numbers, separators, four fields, blanks, name and newline at computed positions |
| MapsFormat.LineLayout | lab_04/part1/lib/output_funcs.c:106 | the only newline of a rendered line is its last character |
| PageSweep.WrapMeansForever | lab_04/part1/lib/output_funcs.c:151 | the 64-bit loop over a range ever reaches its end if and only if the first page address at or past high fits in 64 bits |
| PageSweep.AlignedNoWrap | lab_04/part1/lib/output_funcs.c:151 | page-aligned 64-bit ranges never wrap, and take (high - low) / page steps |
| PageSweep.PagesAre | lab_04/part1/lib/output_funcs.c:151 | the loop visits low + k * page for exactly those k for which that is below high |
| PageSweep.SweepRange | lab_04/part1/lib/output_funcs.c:149-165 | asks for low, low + page, ... below high, each once, and every answer is the file's entry for that page |
| PageSweep.RangePages | lab_04/part1/lib/output_funcs.c:151 | the addresses asked for in one aligned range are exactly the page addresses in it, ascending |
| PageSweep.SweepsEveryPageOnce | lab_04/part1/lib/output_funcs.c:104-164 | over ascending, disjoint, aligned ranges: every mapped page exactly once, ascending, nothing else, and the sum of (high - low) / page queries in all |
| MapsScan.LineScanned | lab_04/part1/lib/output_funcs.c:106-147 | wherever a rendered line stands, at the buffer's start or after a newline, its newline triggers a scan that finds exactly its range and its name and ends at that newline |
| MapsScan.HexScanNumber | lab_04/part1/lib/output_funcs.c:113-123 | the 64-bit accumulation over the digits before a separator gives their value and stops at the separator |
| MapsScan.HexScanValue | lab_04/part1/lib/output_funcs.c:113-123 | for digits of any number and whatever follows them, the 64-bit word is their value up to multiples of 2^64, and sixteen times that when the character after them is no separator |
| MapsScan.FieldsAre | lab_04/part1/lib/output_funcs.c:138-141 | skipping four fields goes from the blank after the range to the blank after the fourth field |
| MapsScan.NameTerminated | lab_04/part1/lib/output_funcs.c:145-146 | with the newline overwritten by NUL, the C string at the name's start is the line's name |
| MapsScan.LineSwept | lab_04/part1/lib/output_funcs.c:106-166 | the outcome of a rendered line's newline is that line's mapping, when its sweep ends |
| MapsScan.ScansChunk | lab_04/part1/lib/output_funcs.c:104-168 | rendered lines that stand one after the other from a line's start on are found once each, in order, and bytes without a newline behind them are not scanned |
| MapsScan.WholeChunk | lab_04/part1/lib/output_funcs.c:101-168 | a read of whole lines: exactly these lines are found, whatever older bytes stand behind them |
| MapsScan.CutChunk | lab_04/part1/lib/output_funcs.c:101-168 | a read that begins and ends inside lines: the beginning of the last line is never scanned; the rest of the first one is scanned as a line, and all whole lines are found after it if and only if that scan stays in the buffer and its sweep ends, or the rest is the newline alone |
| MapsScan.HeadMisread | lab_04/part1/lib/output_funcs.c:110-146 | the rest of a cut line, when it has no dash, is scanned as a mapping from sixteen times the number it begins with up to the end of the next line's range, under the next line's name |
| MapsScan.WrappingLine | lab_04/part1/lib/output_funcs.c:151 | a line whose range wraps is the one outcome that never ends |
| MapsScan.ScanLeaves | lab_04/part1/lib/output_funcs.c:113-125 | when no dash follows the line's beginning the scan leaves the buffer |
| MapsScan.ReadsInTurn | lab_04/part1/lib/output_funcs.c:100-104 | a read overwrites the buffer's start and leaves the bytes behind it; the reads' mappings follow one another, and a scan that does not get to its end is the last |
| MapsScan.WholeReads | lab_04/part1/lib/output_funcs.c:100-169 | reads that each deliver whole lines: all lines of all reads are found, in order, although older bytes stay behind in the buffer |
| MapsScanner.LineStart | lab_04/part1/lib/output_funcs.c:110-112 | the backward loop, for any bytes, begins after the last newline before the triggering one, or at the buffer's start |
| MapsScanner.ScanHex | lab_04/part1/lib/output_funcs.c:113-123 | the accumulation loop, for any bytes: it stops at the separator, after the first character that is no digit, or at the end |
| MapsScanner.SkipFields | lab_04/part1/lib/output_funcs.c:138-141 | the field loop, for any bytes: each field ends at the next blank, or the end is reached |
| MapsScanner.ScanLine | lab_04/part1/lib/output_funcs.c:106-147 | the whole scan, for any bytes, finds the range and the name MapsScan finds, or leaves the buffer exactly where that does |
| MapsScanner.TerminateName | lab_04/part1/lib/output_funcs.c:145-146 | one byte becomes NUL, no other changes, and the name is the C string then at x |
| MapsScanner.HandleNewline | lab_04/part1/lib/output_funcs.c:106-167 | for any bytes: the mapping found is swept under its name, and the buffer is exactly as before |
| MapsScanner.ScanChunk | lab_04/part1/lib/output_funcs.c:104-168 | for any bytes: the mappings found in the buffer are swept once each and in order, up to a scan that leaves it or a sweep that never ends, and the buffer ends as it began |
| MapsScanner.FprintPagemap | lab_04/part1/lib/output_funcs.c:100-169 | for any bytes delivered by any number of reads: the queries are those of the mappings found read by read, in order |
| MapsScanner.WholeReadsSwept | lab_04/part1/lib/output_funcs.c:100-169 | when every read delivers whole lines, the program gets to the end and the mappings it sweeps are exactly those lines |
| MapsScanner.QueriesNamed | lab_04/part1/lib/output_funcs.c:151-163 | every query is for a page of a mapping found, under that mapping's name, and is answered with the file's own entry for it |
| MapsScanner.AddressSpaceSwept | lab_04/part1/lib/output_funcs.c:100-169 | for a whole address space the program asks for exactly its pages, each once and ascending |
| Segments.FlatSplit | lab_04/part2/fortune.c:76-86 | cutting written bytes at their NULs loses nothing |
| Segments.SegmentHere | lab_04/part2/fortune.c:117 | the C string at a segment's start is that segment, in any buffer that holds the segments |
| Segments.RoomCheck | lab_04/part2/fortune.c:65-86 | the check admits every record that fits; beyond those, exactly the lengths max - writeInd and max - writeInd + 1 and an empty first record, and, once the write index is past max + 1, all up to the wrapped difference |
| Segments.OnBoundary | lab_04/part2/fortune.c:104-129 | the read index is a segment's start or the write index if and only if no character of a segment is skipped |
| Segments.ZeroLengthWrite | lab_04/part2/fortune.c:82-86 | from any state, an empty write extends the last segment by a newline; the read index then is a segment's start or the write index if and only if it was a segment's start before |
| Segments.StoreRecord | lab_04/part2/fortune.c:76-86 | the stores of a write that fits: the data with its last byte, or the byte before it, replaced by a newline, then a NUL; nothing beyond changes |
| Segments.WriteStores | lab_04/part2/fortune.c:76-86 | for any data, also empty or with NULs in it, those bytes are the bytes of the new list of segments, and the read index stands for the same place |
| Segments.TextHere | lab_04/part2/fortune.c:117 | the C string at the read index is the rest of the segment under the cursor, and ends where the next segment starts |
| Fortune.Module.constructor | lab_04/part2/fortune.c:174-217 | the module starts with no segments and its cursor at the start |
| Fortune.Module.Write | lab_04/part2/fortune.c:59-90 | for any data: a refused record changes nothing; one that fits becomes its segments, last byte replaced by a newline; one that is admitted without fitting is reported as an overrun |
| Fortune.Module.Snprintf | lab_04/part2/fortune.c:117 | at most max - 1 characters and a NUL are stored, but the untruncated length is returned |
| Fortune.Module.Read | lab_04/part2/fortune.c:98-133 | nothing past file position 0 or before the first write; otherwise the text at the read index, which goes back to the start at the end and then moves to the next segment start or the write index; the text is followed by a newline if and only if its length plus one is below the buffer size |
| Fortune.Module.Run | lab_04/part2/fortune.c:59-133 | every interleaving of writes of any data and fresh reads delivers what the list of segments delivers and ends in the state that list ends in, up to the first overrun |
| Fortune.ReadsRotate | lab_04/part2/fortune.c:104-132 | without writes, the first read delivers the text at the read position, and read i after it the i-th segment from the cursor on, in rotation |
| Fortune.EachSegmentOnce | lab_04/part2/fortune.c:112-129 | n reads in a row deliver a rotation of the n segments: each of them exactly once |
| Fortune.BoundaryStep | lab_04/part2/fortune.c:59-133 | after an operation the read index is a segment's start or the write index if and only if the operation is a read, or it was there before and the operation is not an empty write at the end |
| Fortune.BoundaryKept | lab_04/part2/fortune.c:59-133 | over every run without empty writes the read index is always a segment's start or the write index |
| Fortune.RunThenEachOnce | lab_04/part2/fortune.c:59-133 | after any such run of a fresh module, n reads deliver each of the n segments exactly once |
| Fortune.FirstWriteOverruns | lab_04/part2/fortune.c:65-86 | a first record overruns the buffer if and only if it is empty or has max or max + 1 bytes |
| Fortune.WriteThenRead | lab_04/part2/fortune.c:76-132 | from any cursor, the read that comes after those of the earlier segments delivers the record just written |
| Fortune.TwoRecordsRead | lab_04/part2/fortune.c:59-133 | two records read three times: the first, the second, the first, each with two newlines |
| Fortune.EmptyReads | lab_04/part2/fortune.c:104-108 | before the first write reads deliver nothing |
| Fortune.NewlineLost | lab_04/part2/fortune.c:117-132 | a NUL-free record that fills the empty buffer is accepted, and delivered with a NUL where its newline should be |
| Fortune.EmptyWriteReadsInside | lab_04/part2/fortune.c:82-132 | record, read, empty write, read: the last read starts inside the only segment and delivers just a newline |
| SeqFortune.Module.Write | lab_04/part2/seqfile.c:92-123 | as in fortune.c, and every byte from the write index on stays zero |
| SeqFortune.Module.Show | lab_04/part2/seqfile.c:39-64 | an overrun exactly when strlen would start past the buffer; otherwise it prints the text at the read index, or the first segment past the end, and the cursor advances, except at the wrap, where it only goes back to the first, and on an empty text |
| SeqFortune.Module.Run | lab_04/part2/seqfile.c:39-123 | every interleaving of writes of any data and shows prints what the list of segments shows and ends in the state that list ends in, up to the first overrun |
| SeqFortune.ShowInBounds | lab_04/part2/seqfile.c:41 | strlen starts inside the buffer if and only if the cursor has a segment or the buffer is not full |
| SeqFortune.CursorPeriod | lab_04/part2/seqfile.c:45-61 | from the start, the cursor after m shows is m mod (n + 1) |
| SeqFortune.ShowPeriod | lab_04/part2/seqfile.c:39-64 | shows of n non-empty segments have period n + 1, each in turn and then the first one again at the wrap; they go on for ever if a byte is left in the buffer, and overrun it at the first wrap if not |
| SeqFortune.RecordsShown | lab_04/part2/seqfile.c:39-123 | from the empty module, n NUL-free records that fit and then any number of shows: exactly that periodic output |
| SeqFortune.TwoRecordsShown | lab_04/part2/seqfile.c:39-123 | two records shown five times: the first, the second, the first, the first again, the second |
| SeqFortune.EmptyShows | lab_04/part2/seqfile.c:39-64 | before the first write shows print nothing |
| SeqFortune.FullBufferOverruns | lab_04/part2/seqfile.c:41-61 | a NUL-free record that fills the empty buffer is accepted and shown once, and the next show overruns |
| SeqFortune.CursorReaches | lab_04/part2/seqfile.c:39-64 | from any state, some number of shows brings the read index to the start of a given segment if and only if it is there, or the text at the index and all segments on the way are not empty and a way round the end finds a byte left in the buffer |
| SeqFortune.HeldForEver | lab_04/part2/seqfile.c:58-61 | an empty text at a read index before the end: no show moves it or prints anything again |
| SeqFortune.LeadingNulBlocks | lab_04/part2/seqfile.c:39-123 | once a record of more than one byte that starts with a NUL has been written, in any state, no show gets past it: only segments from the cursor up to it can be reached |
| SeqFortune.LeadingNulHolds | lab_04/part2/seqfile.c:39-64 | when such a record is the only one of the module, no show prints anything |
| SeqFortune.EmptyWriteHolds | lab_04/part2/seqfile.c:39-123 | record, show, empty write: no segment is empty, and yet no show prints anything again |
| SeqFortune.RecordNotEmpty | lab_04/part2/seqfile.c:115-119 | a NUL-free record becomes one segment ending in a newline, and no record's last segment is empty |
| OpenFiles.OpenFile.Read | lab_05/src/app1.c:18 | a read takes the next bytes at the offset its users share and moves that offset past them |
| OpenFiles.Stream.ScanChar | lab_05/src/app1.c:26-46 | one conversion of a fully buffered stream: the next buffered byte, or one refill at the shared offset, or end of file |
| OpenFiles.ScanIs | lab_05/src/app1.c:26-46 | a conversion takes the next byte fetched; with none left it fetches up to a buffer's size at the shared offset, moves that past them, and takes the first, or fails at the end of the file |
| SharedOffset.ClosedForm | lab_05/src/app1.c:36-52 | the positions of round r are 2B(r / B) + r mod B and that plus B |
| SharedOffset.OutputRound | lab_05/src/app1.c:36-52 | round r prints S[2B(r / B) + r mod B] from the first stream, and S[that + B] from the second where it exists, and the rounds stop when the first one does not |
| SharedOffset.RoundStep | lab_05/src/app1.c:36-52 | from any state between rounds, the two scans print exactly the bytes at the round's two positions where these exist, and leave the state of the next round |
| SharedOffset.Run | lab_05/src/app1.c:16-56 | for every file and buffer size the loop ends and has printed what the rounds' positions say |
| SharedOffset.PrintedOnce | lab_05/src/app1.c:36-52 | every file position belongs to one round and one stream |
| SharedOffset.OutputIsPermutation | lab_05/src/app1.c:36-52 | what is printed is a permutation of the file, each position exactly once, from the first stream if its block of size B is an even one and from the second if not |
| StreamThreads.StepInvariant | lab_05/src/app1_threads.c:20-60 | every step of either thread keeps every fetched byte in exactly one place: printed, skipped as white space, or held by one thread, and keeps each thread's output in file order |
| StreamThreads.SpacesAre | lab_05/src/app1_threads.c:23 | the six white-space characters |
| StreamThreads.EveryScheduleDelivers | lab_05/src/app1_threads.c:15-67 | under every schedule no byte is delivered twice, each thread delivers in file order, and once both loops have ended every byte that is none of the six white-space characters has been delivered |
| StreamThreads.EveryScheduleSkips | lab_05/src/app1_threads.c:23-53 | under every schedule a thread delivers no white space except as its very first byte |
| StreamThreads.FetchesBlock | lab_05/src/app1_threads.c:38-44 | a thread with an empty buffer fetches the next B bytes at the shared offset or what is left, and leaves its loop at the end |
| StreamThreads.WhiteSpaceFree | lab_05/src/app1_threads.c:15-67 | for white-space-free content a finished run has delivered exactly the file's positions |
| StreamThreads.RunBound | lab_05/src/app1_threads.c:20-60 | no schedule has more than 4N + 2 steps of threads still in their loops |
| StreamThreads.CanFinish | lab_05/src/app1_threads.c:20-62 | from every reachable state some continuation ends both loops |
| LockedPosition.StepInvariant | lab_05/src/app2_threads.c:16-55 | every single step keeps: the mutex is held exactly by the thread between lock and unlock, the output is the file up to the position, and the position counts the calls |
| LockedPosition.EveryMoment | lab_05/src/app2_threads.c:16-83 | at every moment of every schedule at most one thread is in its critical section, the output is a prefix of the file, or all of it and the final newline, and main is past pthread_join only when the other thread has finished |
| LockedPosition.EveryScheduleOutputsTheFile | lab_05/src/app2_threads.c:57-84 | every finished run has written the file once and in order, made exactly N + 2 calls of outputFile, and left filePos at N + 2 |
| LockedPosition.NoDeadlock | lab_05/src/app2_threads.c:16-83 | short of the end some thread can always move |
| LockedPosition.RunBound | lab_05/src/app2_threads.c:50-77 | no schedule has more than 6N + 24 steps that change anything |
| LockedPosition.CanFinish | lab_05/src/app2_threads.c:50-83 | from every reachable state some continuation ends the program |
| WholeFileLock.StepInvariant | lab_05/src/app2_threads_right.c:13-56 | every single step keeps mutual exclusion and the output a prefix of two copies of the file with main's newline at one place |
| WholeFileLock.EveryMoment | lab_05/src/app2_threads_right.c:19-53 | at every moment of every schedule at most one thread is in its critical section, a thread has read nothing before it, and main is past pthread_join only when the other thread has finished |
| WholeFileLock.EveryScheduleKeepsCopiesApart | lab_05/src/app2_threads_right.c:19-53 | every finished run outputs S[..p] + newline + S[p..] + S + newline, where p is the number of file bytes written before main's first newline |
| WholeFileLock.EveryOutcomeHappens | lab_05/src/app2_threads_right.c:42 | each of these outputs is produced by some schedule |
| WholeFileLock.NoDeadlock | lab_05/src/app2_threads_right.c:19-51 | short of the end some thread can always move |
| WholeFileLock.StepDecreases | lab_05/src/app2_threads_right.c:19-53 | every step that changes anything lowers a measure that starts at 4N + 13 |
| WholeFileLock.CanFinish | lab_05/src/app2_threads_right.c:19-55 | from every reachable state some continuation ends the program |
| SelectServer.OccupiedDispatched | lab_08/part2/server.c:146-159 | a pass over the slots frees exactly as many as clients were found disconnected |
| SelectServer.AcceptingInvariant | lab_08/part2/server.c:109-143 | accepting a client keeps the slots' descriptors distinct, open and different from the listener, and accepts = occupied + disconnected + lost |
| SelectServer.DispatchingInvariant | lab_08/part2/server.c:146-181 | so does a pass over the slots, whichever clients disconnect in it |
| SelectServer.ReachableInvariant | lab_08/part2/server.c:78-182 | so these hold after any number of rounds, whatever the environment answers |
| SelectServer.ReadExactlyOnce | lab_08/part2/server.c:129-159 | in a round every ready client of the table is read exactly once, also when others disconnect in the same pass, and a client accepted in the round is not read |
| SelectServer.SurvivesIf | lab_08/part2/server.c:100-178 | the program ends in a round exactly if select fails, accept fails on a ready listener, or the answer to a ready client that is still connected fails |
| SelectServer.RoundAccounts | lab_08/part2/server.c:100-181 | in a round exactly the new client is opened and counted, and exactly the ready clients that have disconnected are closed and counted |
| SelectServer.ServedIfRoom | lab_08/part2/server.c:109-143 | a client accepted in a round is in the next watch set if and only if a slot was free, and among the lost ones if and only if none was |
| SelectServer.WatchedStep | lab_08/part2/server.c:146-159 | a client in the table is in the next watch set if and only if the round did not find it disconnected |
| SelectServer.WatchedStays | lab_08/part2/server.c:78-182 | over any number of rounds a client in the table is watched until it disconnects |
| SelectServer.LostStayLost | lab_08/part2/server.c:129-142 | a client accepted while the table was full stays open and is never in a later watch set |
| SelectServer.ServedForEver | lab_08/part2/server.c:78-182 | a client that stays connected is watched after any number of rounds if and only if a slot was free when it was accepted |
| SelectServer.LaterClientsLost | lab_08/part2/server.c:109-142 | when n clients connect to a fresh server and none leaves, exactly those after the tenth are lost |
| SelectServer.Server.constructor | lab_08/part2/server.c:23-71 | the server starts with the listener open and an empty table |
| SelectServer.Server.BuildSet | lab_08/part2/server.c:80-95 | the watch set is exactly the listener and the descriptors in the ten slots, and maxSock is its maximum |
| SelectServer.Server.AcceptClient | lab_08/part2/server.c:109-143 | the program goes on unless accept fails; a new descriptor is open and counted, and stored in the first free slot or lost |
| SelectServer.Server.Store | lab_08/part2/server.c:127-142 | the new client goes to the first free slot; the flag stays up exactly when there is none, and the client is then lost |
| SelectServer.Server.Dispatch | lab_08/part2/server.c:146-181 | ends the program exactly when an answer to a connected client fails; otherwise closes and removes exactly the disconnected clients and reads the ready ones in slot order |
| SelectServer.Server.Round | lab_08/part2/server.c:80-181 | the program goes on exactly when select, accept and every send succeed; the invariant is then kept, the state is the specified next one, and the clients read are exactly the ready ones, each once |

## Left out

- NodeStack.Node.constructor: names of 200 bytes or more, and allocation failure, are excluded; the source copies into a 200-byte field without a check, and dereferences what `malloc` returns in some places.
- Walker.Process.Ftw: the start's absolute path must be shorter than 200 bytes too, because it is pushed like any other name.
- Walker.Process.DoPath: a `readdir` error is an end of the listing, as in the source, and only its message is missing; the tree does not change during a walk; the copies that `pop` and `create_node` hand out are never freed by the program, so conservation is claimed for the list's own cells only.
- FileTree.ResolveJoin: symbolic links inside a path argument are not followed, so ".." is the lexical parent; links in the tree are leaves, as under `lstat`.
- Statistics.Stats.PrintStat: what C leaves undefined (a zero total, an overflowing product) is one outcome, `Undefined`, after which nothing is claimed; the `long` counters are unbounded; the `int` arithmetic of the percentages is bounded as in the source.
- Pagemap.PagemapGetEntry: the pagemap file and the offsets at which reading it fails do not change between calls, while the lengths of short reads are arbitrary.
- Pagemap.PhysicalAddressMeaning: the 55-bit field is multiplied as an unsigned 64-bit value; a descriptor left open on failure is not modelled.
- MapsScanner.FprintPagemap: where a loop of the scan gets to the buffer's end, the source reads past it and may write there, and where a range wraps its loop never ends; the model stops at either. The printed table is the log of queries.
- PageSweep.SweepRange: requires NoWrap, since on any other range the source's loop does not end (WrapMeansForever); its caller MapsScanner.HandleNewline tells the two apart.
- Fortune.Module.Write: at an overrun, where the source stores outside its buffer, the model stops with the state as it was; partial copies between user and kernel memory and `vmalloc` failure are not modelled.
- Fortune.Module.Read: the user's buffer is long enough for what is delivered.
- SeqFortune.Module.Write: overruns and copies as for Fortune.Module.Write.
- SeqFortune.Module.Show: where strlen would start past the buffer the model stops; `seq_printf` is given the record as its format, so records are taken to hold no percent sign, and the seq_file core's retries of a show are not modelled.
- OpenFiles.Stream.ScanChar: the stream's buffer is a value, not an array, and a refill of a regular file delivers all that is asked for or all that is left.
- LockedPosition.Step: `filePos` is unbounded, and colour codes and `sleep` are left out.
- SelectServer.Server.Round: `accept` returning descriptor 0, the limit of `fd_set`, and the payload (`atoi` and the square it prints) are not modelled; a `recv` error is treated, as in the source, like a message.
- Printing, colours, `printk`, permissions and the registration of /proc entries, throughout.
- lab_01, lab_03, lab_07, lab_08/part1, lab_08/part2/client.c and lab_09/part2: calls into libc and the kernel without an algorithm of their own.
- lab_04/part1/main.c, lab_05/src/app2.c, app3.c and app3_threads.c, and the key log of lab_09/part1: copying, overlaying and appending, which would add only easy members.
