# Weenix, modelled and proved

A Dafny model of the algorithms at the core of the Weenix kernel and of the tools that come with it,
with proofs of what they are for. Imperative code is modelled imperatively: arrays are updated in
place, objects with fields become classes, loops stay loops. Each such method is tied to a
specification over plain values, and the theorems are about the specification. The kernel's linked
lists are sequences. Calls into code outside the model, such as the answers of the page allocator to
the slab allocator, are parameters.

- `LongDivision`: 64-bit division, Knuth's Algorithm D (The Art of Computer Programming, volume 2,
  section 4.3.1) in base 2^16 with 32-bit arithmetic that wraps.
- `BuddyBlocks`, `BuddyLists`, `PageAllocator`, `PageSystem`: the buddy page allocator. Its lists are
  at all times the function of the blocks handed out that `BuddyBlocks.Canon` defines, and the one bit
  per pair of buddies is the exclusive or of their being listed.
- `EdPattern`, `EdCompile`, `EdSpelling`, `EdMatch`, `EdLaws`, `EdLines`: the regular expressions of ed,
  from text to byte code to leftmost longest-first match, what they mean in characters, and its moves of
  lines by reversal.
- `ShadowChains`, `PageFrames`, `ShadowPages`, `ShadowDaemon`: page frames with their hash table, resident lists and
  reference counts, and the pass that collapses chains of shadow objects.
- `S5Blocks`, `S5Ownership`, `S5Disk`, `S5Truncate`, `S5Files`: the S5 file system on disk, from the kernel's
  and the disk tool's side: the stack of free blocks kept in free blocks, files through direct and indirect blocks,
  inodes taken and given back, files copied in and out.
- `SlabLayout`, `Slabs`: the slab allocator.
- `RamfsLinks`, `RamfsTree`, `Ramfs`: ramfs with the vnode cache. The link count of an inode is at all times the
  number of entries other than `.` and `..` that name it, plus one for its vnode in core, plus one for
  the root; its directories are a tree.
- `ExecArgs`: the argument image of a new program, after the System V ABI Intel386 supplement, pages
  54 to 59.
- `Scheduler`, `SchedulerOrder`: thread queues and mutex hand-off as a step system, with the kernel's
  functions as methods that take its steps, and the order in which threads are served over whole runs.
- `Terminal`, `TerminalLaws`, `Numbers`, `NumberFields`, `InitOrder`: the virtual terminal's ring of rows, number printing and parsing,
  and the order of the initialisation functions.
- `Lists`, `Bytes`, `Arithmetic`, `PageSizes`: what several of these share.

Where code and comments disagree the model follows the code; the exception, the release of memory
objects, is under "Left out". `dafny verify dfyconfig.toml` checks everything.

## Model

| member | source | states |
|---|---|---|
| `LongDivision.TrialDigit` | kernel/util/math.c:260-285 | D3: after at most two decrements the trial digit is the quotient of the three leading dividend digits by the two leading divisor digits, capped at B - 1 |
| `LongDivision.TrialStep` | kernel/util/math.c:280-285 | One turn of D3's loop keeps the estimate, and its product of two digits stays within 32 bits |
| `LongDivision.TrialDigitClose` | kernel/util/math.c:260-303 | Knuth's theorem for that test: the trial digit is the true quotient digit or one more |
| `LongDivision.MultiplySubtract` | kernel/util/math.c:286-298 | D4: the window becomes itself minus digit times divisor, modulo the window when that is negative, which is exactly when a borrow is reported; nothing else changes |
| `LongDivision.AddBack` | kernel/util/math.c:305-313 | D6: the divisor is added back to the window and the carry out of it dropped |
| `LongDivision.OneAddBackSuffices` | kernel/util/math.c:299-313 | A right digit leaves the remainder; a digit one too large borrows and one add-back leaves the remainder |
| `LongDivision.DivideStep` | kernel/util/math.c:257-314 | D3 to D6 at one position: the digit stored is exact and the window keeps the remainder |
| `LongDivision.NextDigit` | kernel/util/math.c:257-315 | One turn of the loop keeps quotient so far times divisor plus remainder equal to the dividend digits read |
| `LongDivision.DivideDigits` | kernel/util/math.c:251-315 | D2 to D7: the quotient digits are those of the true quotient and the remainder is left in place |
| `LongDivision.NormalisingShift` | kernel/util/math.c:242-246 | D1's shift count brings the leading divisor digit to at least B / 2, and no further |
| `LongDivision.Shl` | kernel/util/math.c:125-133 | Shifting the digits left multiplies their number by a power of two when nothing falls out at the top |
| `LongDivision.Normalise` | kernel/util/math.c:242-250 | Dividend and divisor are scaled by the same power of two |
| `LongDivision.ScaledDivision` | kernel/util/math.c:238-250 | Scaling both operands leaves the quotient and scales the remainder |
| `LongDivision.Shr` | kernel/util/math.c:322-328 | D8's right shift divides the remainder digits by the same power of two |
| `LongDivision.Split` | kernel/util/math.c:187-197 | The four digits stand for the 64-bit number |
| `LongDivision.ShortDivision` | kernel/util/math.c:198-225 | The unrolled division by one digit gives the exact quotient and remainder |
| `LongDivision.AlgorithmD` | kernel/util/math.c:227-336 | D1 to D8 on the digit arrays give exact quotient and remainder |
| `LongDivision.Qdivrem` | kernel/util/math.c:143-337 | For every dividend and every nonzero divisor the exact 64-bit quotient and remainder; division by zero exactly for a zero divisor |
| `LongDivision.SignedDivide` | kernel/util/math.c:344-359 | None exactly for a zero divisor, which traps; else C's truncating division, if and only if it is not the most negative number by -1, which gives that number again |
| `LongDivision.UnsignedDivide` | kernel/util/math.c:364-368 | The exact unsigned quotient, None exactly for a zero divisor |
| `LongDivision.UnsignedModulo` | kernel/util/math.c:374-381 | The exact unsigned remainder, None exactly for a zero divisor |
| `BuddyBlocks.CanonDisjoint` | kernel/mm/page.c:24-34 | The blocks that belong on the free lists, given the blocks handed out, never overlap |
| `BuddyBlocks.TakeCanon` | kernel/mm/page.c:235-270 | Handing out a block that belongs on a list takes that block off the lists' contents and changes nothing else |
| `BuddyBlocks.JoinOutstanding` | kernel/mm/page.c:272-294 | Two buddies handed out are as good as their union handed out |
| `BuddyBlocks.FreeReachesCanon` | kernel/mm/page.c:186-226 | Every wholly free block lies in a listed block of its order or above |
| `BuddyLists.BuddyAddr` | kernel/mm/page.c:276-292 | The address arithmetic of joining: the buddy is one block up or down by the parity of the block number, the union starts at the lower one |
| `BuddyLists.PairIndex` | kernel/mm/page.c:140-150 | The bit index computed from an address is that of the block's pair |
| `BuddyLists.BuddyListedIffFree` | kernel/mm/page.c:272-294 | During a join the buddy is on its list exactly when it is wholly free |
| `BuddyLists.JoinPending` | kernel/mm/page.c:272-294 | Joining a pending block with its listed buddy makes the union pending and keeps everything else canonical |
| `BuddyLists.SplitPending` | kernel/mm/page.c:152-175 | Splitting a pending block leaves its upper half pending and its lower half canonical |
| `BuddyLists.AllFree` | kernel/mm/page.c:36-91 | With nothing handed out the lists are the initial ones, every largest block and nothing else, and every bit is clear |
| `BuddyLists.EmptyListsMeanFull` | kernel/mm/page.c:186-226 | If no list of an order or above has an entry, no block of that order is wholly free |
| `PageAllocator.TailsDecide` | kernel/mm/page.c:65-90 | A new group agrees with its cleared bitmaps exactly when it has no tail blocks, and is then canonical with nothing handed out |
| `PageAllocator.Bitmaps` | kernel/mm/page.c:51-63 | The bitmaps take exactly what is cut off the end of the range and have a clear bit for every pair |
| `PageAllocator.Tails` | kernel/mm/page.c:73-79 | What does not fill a block of the next order is listed at its own order, one block per order |
| `PageAllocator.TopBlocks` | kernel/mm/page.c:81-88 | The loop lists every largest block once |
| `PageAllocator.PageGroup.Create` | kernel/mm/page.c:36-91 | The lists, bits and bounds of a new group; the bits are the exclusive or of their buddies being listed if and only if the usable pages are a whole number of largest blocks |
| `PageAllocator.PageGroup.SplitHead` | kernel/mm/page.c:152-175 | The head of a list is replaced by its halves on the list below, the source's assertion holding, and lists and bits stay in step |
| `PageAllocator.PageGroup.SplitTo` | kernel/mm/page.c:196-210 | A listed block is split down to the order asked for |
| `PageAllocator.PageGroup.TakeHead` | kernel/mm/page.c:252-269 | The head of a list is handed out: lists and bits are again a function of the blocks handed out |
| `PageAllocator.PageGroup.AllocFrom` | kernel/mm/page.c:235-270 | Splitting and handing out together |
| `PageAllocator.JoinTest` | kernel/mm/page.c:276-277 | The bit that joining reads tells whether the buddy is on the list |
| `PageAllocator.JoinDone` | kernel/mm/page.c:272-294 | Where joining stops the lists are canonical |
| `PageAllocator.PageGroup.Join` | kernel/mm/page.c:272-294 | Joining unlinks only buddies that are on their list, and ends with the lists and bits a function of the blocks handed out |
| `PageAllocator.PageGroup.GiveBack` | kernel/mm/page.c:303-329 | A block handed out comes back: the lists and bits are those of the remaining blocks alone |
| `PageSystem.BlocksApart` | kernel/mm/page.c:24-34 | Blocks that share no page occupy disjoint addresses, so blocks handed out never overlap |
| `PageSystem.OrderFor` | kernel/mm/page.c:359-392 | The smallest order that holds the request, or the panic, with the source's cast to a signed number, which makes requests of 2^31 pages and more come out as order 0 |
| `PageSystem.PageSystem.constructor` | kernel/mm/page.c:104-109 | No groups and no free pages |
| `PageSystem.PageSystem.GroupOf` | kernel/mm/page.c:93-102 | The group found for an address inside a block of a group is that group |
| `PageSystem.PageSystem.FreeOrder` | kernel/mm/page.c:303-329 | The block leaves the ones handed out, no other group changes, and the free page count grows by its pages |
| `PageSystem.PageSystem.SplitSearch` | kernel/mm/page.c:186-212 | The search takes the smallest larger order with an entry and splits it down; it succeeds only if a block of the next order was free |
| `PageSystem.PageSystem.Reclaim` | kernel/mm/page.c:220-222 | Giving back blocks in the middle of an allocation keeps everything in order and counts their pages |
| `PageSystem.PageSystem.AllocOrder` | kernel/mm/page.c:186-270 | A block handed out was not out, and nothing else changes but by the reclaims; nothing is handed out if and only if no block of the order was free on entry and none of the next order even at the last search; the count of free pages follows |
| `PageSystem.PageSystem.AddRange` | kernel/mm/page.c:111-125 | A new range, cut to page boundaries, adds its pages to the free page count and leaves the other groups alone |
| `PageSystem.PageSystem.AllocPages` | kernel/mm/page.c:359-373 | A request gets a block of its order that was not out, or nothing, if and only if everything is exhausted, or panics, from 129 to 2^31 - 1 pages; the block holds the request if and only if that is below 2^31 pages; nothing else changes but by the reclaims |
| `PageSystem.PageSystem.FreePages` | kernel/mm/page.c:379-392 | Freeing with the page count of the allocation undoes it |
| `EdPattern.GreedySound` | user/bin/ed.c:1347-1428 | What the longest-first search finds is a match, with no star stopping at the forbidden place |
| `EdPattern.GreedyPrefers` | user/bin/ed.c:1347-1428 | Every match is found, and the one found is preferred to it at every star |
| `EdPattern.GreedyCorrect` | user/bin/ed.c:1347-1428 | The search succeeds exactly when the pattern matches, with star counts preferred to those of every match; so too when no star may stop at the end of the last match |
| `EdCompile.BodyIsEncode` | user/bin/ed.c:1188-1296 | The code built character by character is the code of the pattern |
| `EdCompile.StarLast` | user/bin/ed.c:1256-1260 | Setting the star bit at the last operator stars exactly the last element |
| `EdCompile.CompileClass` | user/bin/ed.c:1268-1285 | The class loop copies the members and their count, with its errors |
| `EdCompile.CompileEscape` | user/bin/ed.c:1227-1247 | Bracket and escaped characters, with the limits on brackets |
| `EdCompile.CompileFrom` | user/bin/ed.c:1215-1292 | The code loop: either the pattern is rejected or the code is that of the pattern read |
| `EdCompile.Compile` | user/bin/ed.c:1188-1296 | The compiler computes the program that the grammar gives: an empty pattern stands for the last one; otherwise the text is rejected, or compiled to the code of the pattern it spells, anchored when it begins with ^ |
| `EdSpelling.ReadBack` | user/bin/ed.c:1215-1292 | Reading back a spelled pattern in front of the delimiter |
| `EdSpelling.SpellParses` | user/bin/ed.c:1188-1296 | Spelling any pattern, anchored or not, with a delimiter that is not itself syntax, gives a text that parses as that very pattern |
| `EdSpelling.SpellCompiles` | user/bin/ed.c:1188-1296 | So it compiles to the code of that pattern; an empty spelling stands for the last pattern unless it is anchored |
| `EdMatch.Decode` | user/bin/ed.c:1354-1427 | The operators tell the elements apart and their operands follow them |
| `EdMatch.MarkedAgree` | user/bin/ed.c:1389-1395 | Bracket positions that an abandoned attempt wrote are overwritten on the way that succeeds |
| `EdMatch.Matcher.CClass` | user/bin/ed.c:1430-1444 | Whether a character is in the class, or outside it, and never for the terminating NUL |
| `EdMatch.Matcher.Star` | user/bin/ed.c:1397-1423 | The longest run first, one character less at a time, each time trying the rest |
| `EdMatch.Matcher.Advance` | user/bin/ed.c:1347-1428 | For every compiled pattern and line it ends, succeeds exactly when the pattern matches here, and leaves the end and the brackets of the longest-first match |
| `EdMatch.Matcher.Execute` | user/bin/ed.c:1298-1345 | On a line, or again behind the last match of a global substitution: the leftmost match from there on, longest first at each star, or none exactly when there is none; anchored patterns match at the start only, and not again |
| `EdMatch.Matcher.Search` | user/bin/ed.c:1324-1344 | Both search loops find the leftmost match; the first-character fast path finds the same |
| `EdLaws.OneMeans` | user/bin/ed.c:1356-1387 | What a compiled character, dot, class or negated class matches, in characters: exactly one, that one, any, a member, none of the members; nothing at the end of the line |
| `EdLaws.ManyMeans` | user/bin/ed.c:1397-1423 | A starred element matches exactly the runs of such characters |
| `EdLaws.MarksMean` | user/bin/ed.c:1366-1395 | The end matches only at the end of the line, a bracket always, and neither takes a character |
| `EdLaws.ThenMeans` | user/bin/ed.c:1347-1428 | A pattern behind another matches exactly where some match of the first ends and one of the second begins |
| `EdLaws.MarkMeans` | user/bin/ed.c:1389-1395 | A bracket is at the place that the pattern in front of it reaches |
| `EdLaws.StarEnds` | user/bin/ed.c:1397-1423 | The match that the search settles on for a starred element ends at the first character that is none of its kind, or at the end of the line |
| `EdLaws.StarAgain` | user/bin/ed.c:1298-1345 | Behind a match a starred character matches again exactly when one is there |
| `EdLaws.PlainCompiles` | user/bin/ed.c:1215-1292 | Any text without syntax, an inner $ or ^ included, compiles to a program that matches exactly that text |
| `EdLaws.EscapeCompiles` | user/bin/ed.c:1227-1247 | A backslash makes any character but brackets and the line end stand for itself |
| `EdLaws.DotCompiles` | user/bin/ed.c:1249-1251 | A dot in a text stands for one character, any one |
| `EdLaws.ClassCompiles` | user/bin/ed.c:1268-1285 | A class in a text stands for one of its members, a negated one for one that is not |
| `EdLaws.StarCompiles` | user/bin/ed.c:1256-1260 | One star or several behind a character, a dot or a class stand for a run of such characters |
| `EdLaws.DollarCompiles` | user/bin/ed.c:1262-1266 | A dollar in front of the delimiter stands for the end of the line |
| `EdLaws.AnchorCompiles` | user/bin/ed.c:1207-1213 | A leading ^ anchors the program and changes nothing else in it |
| `EdLaws.BracketsCompile` | user/bin/ed.c:1227-1247 | Brackets around a part of a text mark its start and end |
| `EdLaws.Refused` | user/bin/ed.c:1188-1296 | A star with nothing in front, also behind the anchor, a bracket that closes none and a line end are refused, the last two behind any plain text |
| `EdLaws.TooLong` | user/bin/ed.c:1216-1218 | A plain text of 64 characters or more is refused, unless the 64th is a $ in front of the delimiter |
| `EdLaws.FindPlain` | user/bin/ed.c:1188-1345 | Compiling a plain text and searching a line with it finds the first place where it occurs, or none exactly when it does not |
| `EdLines.ThreeReversals` | user/bin/ed.c:1147-1158 | Reversing two neighbouring blocks and then both together exchanges them |
| `EdLines.ExchangeByReversal` | user/bin/ed.c:1147-1158 | The same on a part of the line array |
| `EdLines.Reverse` | user/bin/ed.c:1163-1177 | The lines between two pointers end up in the opposite order, the others where they were |
| `EdLines.Editor.Exchange` | user/bin/ed.c:1147-1160 | The block goes behind the destination and the current line is its last line |
| `EdLines.Editor.AppendLine` | user/bin/ed.c:769-799 | One line is inserted behind the current line, which moves on to it |
| `EdLines.Editor.CopyLines` | user/bin/ed.c:1141-1145 | The addressed lines are written once more at the end |
| `EdLines.Editor.Move` | user/bin/ed.c:1129-1161 | Moving equals removing the block and inserting it behind the destination, an error exactly for a destination inside it; copying equals inserting a duplicate; the current line is the last one moved |
| `ShadowChains.CollapseKeepsLookup` | kernel/vm/shadowd.c:74-91 | Taking an object with a single parent out of a chain changes no page that any remaining object sees |
| `ShadowChains.CollapseKeepsParents` | kernel/vm/shadowd.c:86-91 | Every remaining object has as many parents as before |
| `ShadowChains.LookupNearest` | kernel/vm/shadow.c:135-156 | What an object sees is the page of the nearest object down the chain that has one |
| `PageFrames.ResidentInChain` | kernel/mm/pframe.c:189-211 | A page is in its hash chain exactly when the object has it, and no other frame has its identity |
| `PageFrames.FrameMoves` | kernel/mm/pframe.c:359-369 | Moving a frame between objects and hash chains keeps hash table, resident lists and counts in step |
| `PageFrames.Memory.constructor` | kernel/mm/pframe.c:122-145 | No objects, nothing resident, all lists empty |
| `PageFrames.Memory.NewObject` | kernel/include/mm/mmobj.h:96-104 | An object without references, pages or shadowed object |
| `PageFrames.Memory.GetResident` | kernel/mm/pframe.c:189-211 | The page of the object if it is resident; an unpinned one goes to the back of the allocated list |
| `PageFrames.Memory.Alloc` | kernel/mm/pframe.c:226-256 | The page becomes resident and its object gains a reference with it, unless there is no memory |
| `PageFrames.Memory.Pin` | kernel/mm/pframe.c:385-403 | At the first pin the frame moves from the allocated list to the end of the pinned list |
| `PageFrames.Memory.Dirty` | kernel/mm/pframe.c:445-463 | The page is dirty unless its object does not allow it |
| `PageFrames.Memory.Unpin` | kernel/mm/pframe.c:414-431 | At count zero the frame moves from the pinned list to the end of the allocated list |
| `PageFrames.Memory.Clean` | kernel/mm/pframe.c:472-502 | The object is given the page to write; the dirty bit goes unless that fails |
| `PageFrames.Memory.Free` | kernel/mm/pframe.c:512-545 | The page is no longer resident and its reference to the object goes |
| `PageFrames.Memory.Migrate` | kernel/mm/pframe.c:349-370 | An assertion fails if and only if the page is busy, or the destination has a newer one and the page is not both dirty and pinned once; else it changes hands, or is cleaned and goes; both objects keep the references beyond their resident pages |
| `ShadowDaemon.MigrateAll` | kernel/vm/shadowd.c:74-85 | All pages of an object go up, where the object above has none, if and only if every one of them allows it; both objects keep their spare references |
| `ShadowDaemon.Absorb` | kernel/vm/shadowd.c:74-91 | An object with one parent gives it its pages and its place in the chain, if and only if its pages allow it, and every other object keeps its spare references |
| `ShadowPages.NearOnly` | kernel/vm/shadowd.c:74-84 | The pages of the object that goes next meet those of the object right above it and no other |
| `ShadowPages.SmoothKept` | kernel/vm/shadowd.c:74-91 | A collapse elsewhere changes for no object whether the assertions hold of it |
| `ShadowPages.HandingSight` | kernel/vm/shadowd.c:78-85 | With only some of the pages moved no object but the one they leave sees another page |
| `ShadowPages.PagesPanic` | kernel/vm/shadowd.c:82-84 | A failing assertion on a page follows from the state in which the walk began |
| `ShadowDaemon.WalkCan` | kernel/vm/shadowd.c:72-74 | An object below another with one spare reference has no other parent and tops no area |
| `ShadowDaemon.CollapseShortens` | kernel/vm/shadowd.c:70-99 | A collapse takes exactly one object out of every chain that ran through it |
| `ShadowDaemon.CollapseChain` | kernel/vm/shadowd.c:64-102 | The walk ends without an assertion failure if and only if every shadow object below the top has at most two spare references, no page of one with a single spare reference is busy, and each such page that also an object above it has, with nothing in between that stays, is dirty and pinned once; then exactly the objects with one spare reference are gone, nobody sees another page and all counts are as before; when one fails nobody sees another page but the object being taken out |
| `ShadowDaemon.Pass` | kernel/vm/shadowd.c:57-104 | The same, as an if and only if in the state before the pass, for a pass over all areas; afterwards no chain has an object left to collapse |
| `ShadowDaemon.TwiceResident` | kernel/mm/pframe.c:349-357 | A chain in which no object has too many references and the pass fails, on an unpinned page that two objects have; with the page pinned once and dirty it does not |
| `S5Blocks.WordAfterSet` | tools/fsmaker/api.py:59-79 | Writing a word of a block changes that word alone |
| `S5Blocks.HoldsUnique` | kernel/fs/s5fs/s5fs_subr.c:178-210 | Superblock and disk hold at most one stack of free blocks |
| `S5Blocks.HoldsFrame` | kernel/fs/s5fs/s5fs_subr.c:170-177 | Blocks that are not free may change without the list noticing |
| `S5Blocks.PushHolds` | kernel/fs/s5fs/s5fs_subr.c:178-210 | Freeing a block puts it on top of the stack, whether it goes into the superblock or becomes the next node |
| `S5Blocks.PopHolds` | tools/fsmaker/api.py:633-648 | No space exactly when the stack is empty; otherwise the top of the stack is handed out and the rest stays |
| `S5Blocks.PushThenPop` | tools/fsmaker/api.py:633-648 | Taking a block right after freeing one gives that block and the superblock's live words back |
| `S5Ownership.LinkUnseen` | tools/fsmaker/api.py:242-262 | Giving an empty slot a zeroed block is not seen by any file |
| `S5Ownership.Store` | tools/fsmaker/api.py:263-268 | Bytes stored in a block change that range of that file and nothing else |
| `S5Ownership.Detach` | kernel/fs/s5fs/s5fs_subr.c:310-334 | The blocks listed in an indirect block and that block are all different, in no other slot and not free |
| `S5Disk.Simdisk.Format` | tools/fsmaker/api.py:571-594 | All inodes free in order, and the free blocks as a stack |
| `S5Disk.Simdisk.FreeBlockKernel` | kernel/fs/s5fs/s5fs_subr.c:178-210 | The push of the kernel |
| `S5Disk.Simdisk.FreeBlock` | tools/fsmaker/api.py:70-79 | The same push, word by word, by the disk tool |
| `S5Disk.Simdisk.AllocBlock` | tools/fsmaker/api.py:633-648 | The pop: none exactly when nothing is free, else the block freed last, which no file owns |
| `S5Disk.Simdisk.BlockFor` | tools/fsmaker/api.py:239-262 | The block for a position with the zeroed blocks taken for it, none exactly when too few are free; no file changes |
| `S5Disk.Simdisk.Write` | tools/fsmaker/api.py:232-270 | The file's bytes are the old ones with the data over them, other files are unchanged, no block is owned twice, the size grows as needed; the errors of type and size; no space exactly when the range lacks more blocks than are free |
| `S5Disk.Simdisk.Read` | tools/fsmaker/api.py:203-230 | As many bytes as asked for, none from the end of the file or of the largest file on, and less only up to there; each is the byte of the file at its offset |
| `S5Files.FileFormat` | tools/fsmaker/api.py:203-230 | The byte at an offset is in the direct block of its number, or the block whose little-endian number is in the indirect block, at the rest of the division by 4096; without a block it is zero |
| `S5Files.AppendThenRead` | tools/fsmaker/api.py:203-270 | After a write at the end of a file a read of any greater length from there gives just what was written |
| `S5Files.CopyOut` | tools/fsmaker/sh.py:609-614 | The loop that copies a file out ends, with exactly the bytes of the file |
| `S5Files.CopyIn` | tools/fsmaker/sh.py:548-557 | The command that copies a file in leaves exactly its bytes, its size and all other files as they were; it cannot empty the old file exactly when that is of the largest size and has an indirect block |
| `S5Files.CopyInOut` | tools/fsmaker/sh.py:548-614 | What has been copied in is copied out again |
| `S5Disk.ReadAfterWrite` | tools/fsmaker/api.py:203-270 | After a write its range reads as the data and every range apart from it, or of another file, as before |
| `S5Truncate.FreeDirectSlot` | tools/fsmaker/api.py:274-288 | A direct block goes from its slot to the free list, and its bytes read as zeros |
| `S5Truncate.FreeEntrySlot` | tools/fsmaker/api.py:279-291 | The same for a block listed in the indirect block |
| `S5Truncate.PushedElsewhere` | tools/fsmaker/api.py:284-291 | Freeing the block before its entry is cleared comes to the same as the other way round |
| `S5Truncate.DropIndirect` | tools/fsmaker/api.py:292-294 | The indirect block goes to the free list, and all slots behind it are empty |
| `S5Truncate.FreeSlot` | tools/fsmaker/api.py:275-295 | One round of the loop: what it frees, and that nothing but the slots it empties changes for anyone |
| `S5Truncate.Truncate` | tools/fsmaker/api.py:272-303 | If and only if: an error past the end of the indirect block, when the file reaches past its last slot and has an indirect block; an error, or no end, when the new size takes more blocks; else the blocks go to the free list from the end down, and slots, bytes and ownership are those of the file cut off. Errors change nothing |
| `S5Truncate.TruncateKeeps` | tools/fsmaker/api.py:272-303 | The bytes below the new size and all bytes of other files are as before, the slots freed read as zeros |
| `S5Truncate.BackIffTidy` | tools/fsmaker/api.py:272-303 | All blocks of a file come back if and only if none lies beyond its size and its indirect block, if any, has its first entry in use |
| `S5Truncate.SparseLost` | tools/fsmaker/api.py:292-294 | A sparse file whose indirect block is lost |
| `S5Truncate.ReleaseInode` | tools/fsmaker/api.py:461-466 | The inode comes first among the free ones, and all blocks of the file are free again if and only if it is tidy; other files see what they saw |
| `S5Truncate.AllocInode` | tools/fsmaker/api.py:622-627 | No inode exactly when the list is empty, else its first; so an inode just freed comes next |
| `S5Disk.Simdisk.FreeDirect` | kernel/fs/s5fs/s5fs_subr.c:299-308 | Every direct block goes to the free list once and its slot is cleared |
| `S5Disk.Simdisk.FreeEntries` | kernel/fs/s5fs/s5fs_subr.c:325-333 | Every entry is read before its block can be overwritten as a node; the blocks listed and then the indirect block go to the free list once each |
| `S5Disk.Simdisk.FreeInodeKernel` | kernel/fs/s5fs/s5fs_subr.c:287-347 | All blocks of the inode, each once and in this order, are on top of the free stack, the inode heads the free inodes, other files are unchanged |
| `S5Disk.Simdisk.AllocInodeKernel` | kernel/fs/s5fs/s5fs_subr.c:218-273 | None exactly when the list is empty, else its head, which owns no block; so an inode just freed comes next |
| `SlabLayout.NobjsExact` | kernel/mm/slab.c:92-104 | The number of objects per slab is the largest that fits |
| `SlabLayout.WasteSmall` | kernel/mm/slab.c:106-115 | The waste is less than one more object would take |
| `SlabLayout.CalcSlabSize` | kernel/mm/slab.c:117-158 | The first order of least waste from the smallest that holds an object on, with as many objects as fit; a panic exactly when none does |
| `SlabLayout.Inside` | kernel/mm/slab.c:202-260 | Objects, control words and slab structure lie inside the page block |
| `SlabLayout.Disjoint` | kernel/mm/slab.c:68-74 | No object or control word reaches into the next |
| `Slabs.InUseCounted` | kernel/mm/slab.c:40-45 | The count in the slab structure is that of its objects in use |
| `Slabs.LiveApart` | kernel/mm/slab.c:202-308 | An object in use lies apart from every other object with its control word, in use or not, and from every slab structure, over all slabs |
| `Slabs.SlabAllocator.Grow` | kernel/mm/slab.c:202-260 | A new slab with every object free joins the list; no object changes use |
| `Slabs.SlabAllocator.Alloc` | kernel/mm/slab.c:262-308 | The search ends; an object not in use before is, and no other changes; none exactly when all slabs are full and there is no page |
| `Slabs.SlabAllocator.Free` | kernel/mm/slab.c:310-338 | The object, and only it, is no longer in use |
| `Slabs.SlabAllocator.ReclaimHere` | kernel/mm/slab.c:357-376 | Only slabs without objects in use are given back, until the target is met or none is left |
| `Slabs.Reclaim` | kernel/mm/slab.c:347-379 | The same over all allocators, with the number of pages given back |
| `RamfsLinks.CoreDrop` | kernel/fs/ramfs/ramfs.c:269-287 | When the last reference to a vnode goes, the inode goes with it exactly when no entry names it and it is not the root |
| `RamfsLinks.FreeInode` | kernel/fs/ramfs/ramfs.c:269-287 | An inode freed is named by no entry and held none, so every other count stays right |
| `RamfsLinks.EntryAdd` | kernel/fs/ramfs/ramfs.c:346-353 | A new entry takes up the link its inode was given |
| `RamfsLinks.EntryRemove` | kernel/fs/ramfs/ramfs.c:467-479 | A removed entry leaves its inode one link to drop |
| `RamfsLinks.InodeNew` | kernel/fs/ramfs/ramfs.c:145-184 | A new inode has one link for the entry to come |
| `RamfsTree.TreePruned` | kernel/fs/ramfs/ramfs.c:269-287 | Entries and inodes that go leave the directories a tree: who names a directory is its .. and nearer to the root |
| `RamfsTree.TreeEntry` | kernel/fs/ramfs/ramfs.c:346-353 | So does an entry for a file |
| `RamfsTree.TreeDir` | kernel/fs/ramfs/ramfs.c:509-525 | So does an empty directory entered in its .. |
| `RamfsTree.TreeLink` | kernel/fs/ramfs/ramfs.c:421-453 | A new name keeps the tree if and only if it is not for a directory, or for one other than the root whose .. is the directory of the name |
| `RamfsTree.UpNames` | kernel/fs/ramfs/ramfs.c:509-525 | The .. of a directory that has a name has an entry for it, and is the root or has a name itself |
| `RamfsTree.RootAbove` | kernel/fs/ramfs/ramfs.c:509-525 | From every directory that has a name the ..s lead to the root, each to the directory whose entry names the one before |
| `Ramfs.Ramfs.Mount` | kernel/fs/ramfs/ramfs.c:190-230 | The root alone, its vnode in core, its . and .. itself |
| `Ramfs.Ramfs.VGet` | kernel/fs/vnode.c:114-203 | A reference more, with a link more when the vnode comes into core |
| `Ramfs.Ramfs.VPut` | kernel/fs/vnode.c:228-303 | A reference less; with the last one the link of the vnode goes, and the inode exactly when that was all |
| `Ramfs.Ramfs.AllocInode` | kernel/fs/ramfs/ramfs.c:145-184 | The first unused inode, none exactly when there is none or no memory |
| `Ramfs.Ramfs.Lookup` | kernel/fs/ramfs/ramfs.c:404-419 | The inode that the name stands for, referenced; or no entry and no change |
| `Ramfs.Ramfs.Create` | kernel/fs/ramfs/ramfs.c:320-358 | A new file in the first unused inode and the first free slot, referenced: the name stands for it, every other for what it did; no space exactly when one of them is missing |
| `Ramfs.Ramfs.Mknod` | kernel/fs/ramfs/ramfs.c:361-402 | A new device in the first unused inode and the first free slot, which the name stands for from then on |
| `Ramfs.Ramfs.Mkdir` | kernel/fs/ramfs/ramfs.c:484-529 | A new directory: the name stands for it, in it . for itself, .. for the directory it was made in and no other name for anything; every other name elsewhere for what it did; the directories stay a tree |
| `Ramfs.Ramfs.Link` | kernel/fs/ramfs/ramfs.c:421-453 | One more name and one more link for an inode in core; the directories stay a tree if and only if it is no directory, or one other than the root whose .. is the directory of the name |
| `Ramfs.Ramfs.Unlink` | kernel/fs/ramfs/ramfs.c:455-482 | The name stands for nothing, every other for what it did; the file is freed exactly when no other entry names it and its vnode was not in core |
| `Ramfs.Ramfs.Rmdir` | kernel/fs/ramfs/ramfs.c:531-577 | Its errors exactly when the name is missing, no directory or not empty, with nothing changed; else the name stands for nothing and the directory is freed exactly when nothing else holds it |
| `ExecArgs.CalcArgSize` | kernel/api/elf32.c:309-353 | The size of header, vectors, strings and one program header table per AT_PHDR entry |
| `ExecArgs.CopyStrings` | kernel/api/elf32.c:395-421 | The strings one after the other, their user-space addresses in the vector, and the null pointer; nothing else changes |
| `ExecArgs.CopyAux` | kernel/api/elf32.c:423-435 | The entries of auxv, with an AT_PHDR entry pointing to the table behind the strings |
| `ExecArgs.ReadVectorAt` | kernel/api/elf32.c:395-421 | Following a vector's pointers gives back the strings |
| `ExecArgs.LastTableOf` | kernel/api/elf32.c:423-435 | Every AT_PHDR entry leads to its own table if and only if they all have the same bytes, so with one entry |
| `ExecArgs.LoadArgs` | kernel/api/elf32.c:366-444 | Inside the size given, an image that decodes to argc, argv, envp, auxv and the program header table |
| `Scheduler.Kernel.constructor` | kernel/proc/kmutex.c:15-21 | The system at boot, in order: one thread runs, all queues are empty and all mutexes free |
| `Scheduler.Kernel.Enqueue` | kernel/proc/sched.c:30-37 | The thread is first in the list, and the queue and its size say so |
| `Scheduler.Kernel.Dequeue` | kernel/proc/sched.c:45-62 | The last of the list, so the one that came first, or none exactly when it is empty |
| `Scheduler.Kernel.MakeRunnable` | kernel/proc/sched.c:261-273 | The thread is on the run queue |
| `Scheduler.Kernel.WakeupOn` | kernel/proc/sched.c:139-151 | The thread that waited longest becomes runnable; the assertion that it sleeps holds |
| `Scheduler.Kernel.BroadcastOn` | kernel/proc/sched.c:153-161 | The loop ends with every waiter woken |
| `Scheduler.BroadcastOrder` | kernel/proc/sched.c:153-161 | A broadcast empties the queue into the run queue in order of arrival |
| `Scheduler.Kernel.SleepOn` | kernel/proc/sched.c:100-108 | The current thread sleeps on the queue |
| `Scheduler.Kernel.Switch` | kernel/proc/sched.c:222-246 | The last of the run queue's list becomes current; that it is the thread that was runnable first is FirstComeFirstServed |
| `Scheduler.Kernel.MutexLock` | kernel/proc/kmutex.c:29-42 | A free mutex is locked and held by the caller; else the caller sleeps on the mutex's queue |
| `Scheduler.Kernel.MutexLockReturn` | kernel/proc/kmutex.c:38-41 | A woken thread returns with the mutex, which was its own already |
| `Scheduler.Kernel.MutexUnlock` | kernel/proc/kmutex.c:86-102 | The mutex goes to the first waiter, who becomes runnable, or is free, and is not the caller's |
| `Scheduler.GivenBeforeRunning` | kernel/proc/kmutex.c:86-102 | A thread woken in kmutex_lock owns the mutex before it runs |
| `Scheduler.UnlockHandOff` | kernel/proc/kmutex.c:86-97 | With waiters the new owner is the one that came first |
| `Scheduler.MutualExclusion` | kernel/proc/kmutex.c:23-42 | At most one thread is inside a mutex |
| `Scheduler.StepInv` | kernel/proc/sched.c:30-273 | Every step keeps: queues, sizes and wait channels agree, no thread is lost, holders and waiters of each mutex agree, ownership is in order of arrival |
| `Scheduler.EveryRun` | kernel/proc/sched.c:30-273 | All that holds in every state of every run from boot, however the threads' steps interleave |
| `SchedulerOrder.FirstComeFirstServed` | kernel/proc/sched.c:30-62 | Over every run, on the run queue and every wait queue: a thread that comes to a queue where another is does not leave it while that one stays |
| `SchedulerOrder.TurnComes` | kernel/proc/sched.c:222-246 | In every run a thread with p threads before it on the run queue is the current one after p + 1 switches, whatever steps lie between |
| `SchedulerOrder.InsideUntilUnlock` | kernel/proc/kmutex.c:29-102 | A thread is inside a mutex exactly from when its lock returns until it unlocks it |
| `Terminal.FloorMatters` | kernel/drivers/tty/virtterm.c:411-415 | The ring behaves as a terminal that forgets nothing, if and only if no backspace is at the first kept position of a text that has lost rows |
| `Terminal.RingIsAll` | kernel/drivers/tty/virtterm.c:402-465 | Over a whole stream within the ring there is no difference to a terminal that forgets nothing |
| `Terminal.DroppedRow` | kernel/drivers/tty/virtterm.c:411-415 | A stream from the empty terminal on that leaves the ring, and after which the two differ |
| `Terminal.RingInOrder` | kernel/drivers/tty/virtterm.c:42-58 | Head and tail begin rows and the cursor is between them |
| `Terminal.DistOf` | kernel/drivers/tty/virtterm.c:101-105 | Circular distances are distances in the text |
| `Terminal.NewHead` | kernel/drivers/tty/virtterm.c:440-447 | The head moves by one row exactly when the new row would reach it |
| `Terminal.VirtTerm.constructor` | kernel/drivers/tty/virtterm.c:123-145 | One empty row, shown from the top |
| `Terminal.VirtTerm.HandleChar` | kernel/drivers/tty/virtterm.c:402-465 | For every character the ring holds the last rows of the text fed with it |
| `Terminal.VirtTerm.HandleAll` | kernel/drivers/tty/virtterm.c:402-465 | For every stream the ring holds the last rows of a terminal that goes back no further than they do, and if its backspaces stay in kept rows, of one that forgets nothing |
| `Terminal.VirtTerm.Redraw` | kernel/drivers/tty/virtterm.c:346-397 | All cases of the copy show the ring from the top on modulo its size, blank beyond the tail: the text itself from wherever in its kept rows the top is |
| `TerminalLaws.Prints` | kernel/drivers/tty/virtterm.c:428-433 | Ordinary characters, however many, stand one behind the other from the cursor on, with the cursor behind them, over what was there; the rest is as it was, and rows are added just as far as needed |
| `TerminalLaws.Controls` | kernel/drivers/tty/virtterm.c:411-427 | Newline, return and backspace move the cursor to the start of the next row, of the same row, and one back, and leave all characters alone |
| `TerminalLaws.PrintsLines` | kernel/drivers/tty/virtterm.c:402-465 | Short lines printed on an empty terminal stand each in its row, blanks behind it, the cursor below them |
| `Numbers.Digits` | kernel/util/printf.c:203-215 | The digits lowest first, at most 64 of them |
| `Numbers.Number` | kernel/util/printf.c:169-268 | The field as specified by flags, width, precision and base, cut off at the end of the buffer |
| `Numbers.Strtoull` | kernel/util/printf.c:114-137 | The prefix decides base 0; the digits as far as they go, modulo 2^64, and where they end |
| `Numbers.NumeralBack` | kernel/util/printf.c:203-215 | The value of a printed numeral is the number, without leading zero |
| `Numbers.RoundTrip` | kernel/util/printf.c:114-268 | Printing an unsigned 64-bit number without spaces and parsing it in the same base, 2 to 16, gives it back and stops at its end |
| `Numbers.RoundTripAnyBase` | kernel/util/printf.c:114-268 | Prefixed octal and hexadecimal, and decimal, read in base 0, give the number back if and only if the hexadecimal is lower-case and the decimal has no zeros in front or is below 8 |
| `Numbers.PaddedNotRead` | kernel/util/printf.c:114-137 | A decimal of 8 or more with zeros in front does not come back in base 0 |
| `Numbers.PrefixNotRead` | kernel/util/printf.c:114-268 | Of a prefixed hexadecimal number in base 16, or an upper-case one in base 0, one character is read |
| `NumberFields.Padding` | kernel/util/printf.c:216-266 | A field has its width or the length of the number, whichever is more: the number with spaces on the right, with zeros before its digits or with spaces on the left, by its flags |
| `NumberFields.FirstCharacters` | kernel/util/printf.c:183-244 | It begins with - exactly when a signed number is negative, with + or a space exactly when the flags say so, and then with the prefix of the base |
| `NumberFields.DigitPart` | kernel/util/printf.c:203-218 | Its digits have the number as their value, the magnitude of a signed one, with as many digits as the precision or no zero in front |
| `NumberFields.NumeralAt` | kernel/util/printf.c:203-215 | Each digit is that of its power of the base |
| `NumberFields.Strtoll` | kernel/util/printf.c:145-150 | The signed number that the string begins with, in 64 bits |
| `NumberFields.SignedRoundTrip` | kernel/util/printf.c:145-268 | Printing any signed 64-bit number without spaces and parsing it in the same base, 2 to 16, gives it back and stops at its end |
| `InitOrder.MarkedTwice` | kernel/util/init.c:46-49 | The circular dependency panic: the dependency is the second one on a function of this search, or on its root |
| `InitOrder.NoCycle` | kernel/util/init.c:27-66 | If every function could be called after its dependencies there is no cycle |
| `InitOrder.NoClash` | kernel/util/init.c:27-66 | When all functions have been called no dependency was missing and no two of one search met |
| `InitOrder.ClashShares` | kernel/util/init.c:46-49 | Without a cycle and with no function needed twice there is no circular dependency panic |
| `InitOrder.TrianglePanics` | kernel/util/init.c:46-49 | Three functions without a cycle that panic all the same: a shared dependency within one search |
| `InitOrder.LeadsUncalled` | kernel/util/init.c:116-121 | A search reaches for the first time what its root needs and no function before the root does |
| `InitOrder.InitCalls.InitCall` | kernel/util/init.c:27-66 | The search ends; without panic the function is called after its dependencies, and so is all that the search marked; what it had marked before is not called, so the assertion holds |
| `InitOrder.InitCalls.CallAll` | kernel/util/init.c:116-121 | The loop ends and panics if and only if a dependency is missing, or two dependencies on one function, or one on the root, lie within the functions that one root is the first to need; else every function is called once and after its dependencies and there is no cycle |

## Left out

- Page groups with tail blocks, beyond PageAllocator.PageGroup.Create: their bits are not the exclusive or of their buddies, so nothing is claimed for them.
- The retry of the page allocator searches larger orders only; the model keeps that, and a block of the very order given back meanwhile is not found.
- ed's error handling outside well-formed patterns and valid addresses, the replacement text of a substitution, the block cache of the temporary file, terminal input and shell escapes.
- PageFrames.Memory.Put: follows the documented release of a memory object; the release in kernel/vm/shadow.c frees an object whenever it has no resident pages and keeps its reference to the object it shadows, against its own comment, and is not modelled.
- PageFrames.Memory.PutLast: the last release of an object without resident pages; an object is never released for the last time with pages resident in the daemon's pass.
- PageFrames.Memory.Free: of an object that has a reference besides those of its pages; without one it is already being released.
- ShadowDaemon.Pass: one uninterrupted pass; sleeping inside it, and the wait queues around it, are not modelled.
- The count of pinned frames in kernel/mm/pframe.c, the sleeping path of pframe_get, and the page-out daemon.
- S5Disk.Simdisk.Format: the first free block is a parameter; the source starts the free list at the last inode block.
- S5Truncate.Truncate: what the disk holds while it does not end.
- S5Truncate.ReleaseInode: a device inode has size 0, as the source leaves it.
- S5Files.CopyIn: how much of the file is there when the disk runs out of space, or the source is larger than a file can be.
- Directories of the S5 file system, in the tool and in the kernel, and the kernel functions that are not written yet.
- SlabLayout.CalcSlabSize: object sizes whose arithmetic leaves 32 bits.
- Slabs.SlabAllocator.Alloc: the contents of the red zones, whose space is modelled; a reclaim that the page allocator starts is a call of its own before it.
- kmalloc and kfree, which choose among slab allocators.
- Ramfs.Ramfs.Create: entries are added only to directories that are still linked, and names have 1 to 27 characters.
- Ramfs.Ramfs.Mknod: the same.
- Ramfs.Ramfs.Mkdir: the same.
- Ramfs.Ramfs.Link: the same.
- Ramfs.Ramfs.Lookup: `..` of a removed directory that is still open may name an inode that is gone, and is not looked up.
- File contents and sizes in ramfs, unmounting, and a vnode that is busy or for which there is no memory.
- ExecArgs.LoadArgs: the copy from the kernel buffer into user space, and buffers larger than the size.
- Cancellation of sleeps and cancellable locking, interrupt levels, and the context switch itself.
- Scrolling by the user and the choice of the top row in the virtual terminal.
- simple_strtoul and simple_strtol, which differ in width only, and vsnprintf and vsscanf.
- kernel/vm/vmmap.c, mmap.c, anon.c, shadow.c, pagefault.c, kernel/api/access.c, kernel/fs/namev.c, open.c, vfs_syscall.c and process exit and wait, whose code departs from its comments or does not balance its references.
- Page tables, interrupts, APIC, GDT, ACPI, boot, the shells and small user programs, the gdb helpers.
