# xv6 and its course projects, modelled and proved in Dafny

This project models the algorithms and protocols of an xv6 teaching kernel, its user programs and the
student changes made to them, and proves what they are for. `dafny verify dfyconfig.toml` checks all of it.

State that the C code updates in place is a class here, with methods that follow the code statement by
statement; each method is proved against specification functions and invariants, and the lemmas are about
those. Concurrent code is a class whose methods each run from one point where the lock is free to the next,
so an invariant that every method keeps holds in every interleaving.

| files | what they model |
|---|---|
| CTypes | C's unsigned int, int and byte, and an option type, for all modules |
| DiskLayout, FsSpec, Fs, Mkfs | the on-disk file layer (`kernel/fs.c`) and the image builder (`tools/mkfs.c`) |
| FreeList, Umalloc | the user-level allocator (`user/umalloc.c`) |
| ShellSyntax, Shell, ShellGrammar, ShellPrint | the shell's parser, its language and the termination pass over its input buffer (`user/sh.c`) |
| MlfqSpec, Mlfq | the multi-level feedback scheduler (p2b `kernel/proc.c`) |
| ShmSpec, Shm, ShmIsolation | shared-memory regions and private memory across shmgetat, fork, wait, exec and sbrk (p3b `kernel/`) |
| VmSpec, PageBytes, Vm, VmMmu | frames and two-level page tables, and what the processor sees through them (`kernel/vm.c`, `kernel/kalloc.c`) |
| Ring, Bcache | the buffer cache and the disk queue (`kernel/bio.c`, `kernel/ide.c`) |
| Pipe | pipes (`kernel/pipe.c`) |
| Server | the web server's bounded buffer (`projects/p4/p4a/server.c`) |
| ProcTree | fork, exit, wait, sleep, wakeup and kill (`kernel/proc.c`) |
| Regex | grep's matcher (`user/grep.c`) |

The invariants at the centre are:

- `FsSpec.Owns` (files): every block an inode names, directly, as its indirect block or through it, is named
  once and marked in use, and every block with a clear bit is zero. balloc does not zero a block and bfree
  does, so without the last part a fresh indirect block would hold names. `Fs.Dense`: no holes.
- `Umalloc.Allocator.Valid`: memory holds one cycle through base in address order with no two adjacent
  blocks; free and live blocks are disjoint and together are all the units sbrk gave.
- `Mlfq.Kernel.Valid`: ninlevel[k] is the number of runnable or running processes at level k.
- `Shm.Kernel.Valid`: each process's regions tile [shmtop, USERTOP) and map the region's frames; each count
  is the number of processes attached plus the counts that failed forks lost (`leaked`, which only a failed
  fork changes).
- `ShmIsolation.Safe`: a frame that a process maps below its shared range is mapped nowhere else and is no
  region's.
- `Vm.Machine.Valid` with `VmSpec.Shows` and `VmSpec.Private`: memory shows exactly one address space per
  directory, on frames of its own, disjoint from the list of free frames threaded through memory.
- `Bcache.Cache.Valid`: the ring is a permutation of the buffers in order of release, no sector is cached
  twice, an idle valid buffer equals the last data written to its sector, the disk lags only behind requests
  still queued, and the requests served and queued are those made, in order.
- `Pipe.PipeBuffer.Valid` and `Awake`, `Server.Queue.Valid` and `NoLostSignal`, `ProcTree.Table.Valid`: order
  of bytes and connections, the process tree, and no lost wakeups.

Four places where the code does not do what one would expect are stated exactly:

- growproc asked to shrink a process to size 0 frees its pages, reports failure and keeps the size
  (`Shm.WholeUnlessEmptied`, both directions). A fork panics if and only if it reaches the copying of memory
  and meets a missing page below the size before memory runs out (`Shm.Kernel.Fork`, `Shm.Copyuvm`;
  `Shm.EmptiedExample` calls the one and then the other). A process without such a hole never meets it
  (`Shm.WholeHasNoGap`).
- A fork that finds a slot and a kernel stack and then has no frame for the directory, or too few for the
  pages below the size, leaves the parent's region counts raised; no other call loses a count
  (`Shm.Kernel.Fork`, `Shm.Kernel.ShmRefcount`; `Shm.LeakExample`).
- A killed writer with more than 512 bytes left while a reader is asleep fills the pipe and gives up without
  waking the reader; in every other case no wakeup is lost (`Pipe.PipeBuffer.Write`, both directions;
  `Pipe.StrandedReader`).
- malloc asks sbrk for the memory it goes on to use if and only if the request is at most 2^31 - 16 bytes or
  one of the last seven sizes, whose rounding wraps to a block of one unit; between them the int argument is
  negative or wraps to 0 (`Umalloc.GenuineRequest`, `Umalloc.BeyondRequest`). The block holds the bytes asked
  for if and only if the rounding does not wrap (`Umalloc.UnitsHold`).

What the code takes for granted is a precondition: free blocks for a write, disk reads that succeed, buffers
written through before they are released, sbrk returning memory above all it gave before, a malloc size that
sbrk can be asked for if it has to be, one CPU for the scheduler's dispatch claims. A `requires` marked
"otherwise it panics" is the test of a panic in the code; that the callers meet it proves that panic
unreachable.

## Model

| member | source | states |
|---|---|---|
| `DiskLayout.WordPutWord` | projects/p1/p1b/xv6/kernel/fs.c:334-343 | A word stored in a block is read back exactly and no other word of the block changes. |
| `DiskLayout.WordPutWords` | projects/p1/p1b/xv6/kernel/fs.c:178-184 | The words of an on-disk inode stored in a block are read back exactly and the rest of the block is untouched. |
| `DiskLayout.SetBitOf` | projects/p1/p1b/xv6/kernel/fs.c:65-67 | Or-ing a mask into a byte whose bit is clear sets that bit and no other. |
| `DiskLayout.ClearBitOf` | projects/p1/p1b/xv6/kernel/fs.c:91-94 | And-ing with the complement of a mask clears that bit and no other. |
| `FsSpec.AreasDisjoint` | projects/p1/p1b/xv6/include/fs.h:36-45 | Inode blocks, bitmap blocks and data blocks lie in disjoint ranges of the disk, in that order. |
| `FsSpec.SetBitBits` | projects/p1/p1b/xv6/kernel/fs.c:62-70 | Marking a block in use changes exactly that block's bit, and only its bitmap block. |
| `FsSpec.ClearBitBits` | projects/p1/p1b/xv6/kernel/fs.c:88-95 | Clearing a block's bit changes exactly that bit, and only its bitmap block. |
| `FsSpec.DinodeRoundTrip` | projects/p1/p1b/xv6/kernel/fs.c:171-187 | An inode written to its slot is read back equal, and every other inode on the disk is as before. |
| `FsSpec.DinodeOnDisk` | projects/p1/p1b/xv6/include/fs.h:24-45 | The bytes of an inode on disk: two each for type, major, minor and links, four for the size and for each address, 64 bytes an inode and eight inodes a block from block 2 on. |
| `FsSpec.GrowAddr` | projects/p1/p1b/xv6/kernel/fs.c:324-331 | A free block put into an empty address slot keeps block ownership: named once, marked in use, every free block zero. |
| `FsSpec.GrowIndirect` | projects/p1/p1b/xv6/kernel/fs.c:333-343 | The same for an empty entry of an indirect block; the new block is not the indirect block. |
| `FsSpec.NamedIsData` | projects/p1/p1b/xv6/kernel/fs.c:353-376 | Every block an inode names is a data block below the size of the disk. |
| `FsSpec.FreeIsData` | projects/p1/p1b/xv6/kernel/fs.c:54-76 | Every free block is a data block, so allocation never hands out inode or bitmap blocks. |
| `FsSpec.DataWrite` | projects/p1/p1b/xv6/kernel/fs.c:440-447 | Overwriting a named data block keeps ownership, the free set and the inode table, and changes no other named block. |
| `FsSpec.InodeWrite` | projects/p1/p1b/xv6/kernel/fs.c:171-187 | Writing an inode keeps ownership and the free set and changes only its entry of the inode table. |
| `FsSpec.OwnsMinus` | projects/p1/p1b/xv6/kernel/fs.c:352-380 | Once an inode's blocks are back and zeroed and the inode is emptied, ownership holds and the free set grew by exactly those blocks. |
| `Fs.ScanPosition` | projects/p1/p1b/xv6/kernel/fs.c:62-66 | The bit balloc tests for index bi of the bitmap block for b is the bit of block b + bi. |
| `Fs.FileSystem.Readsb` | projects/p1/p1b/xv6/kernel/fs.c:28-36 | Reading block 1 yields the superblock. |
| `Fs.FileSystem.Balloc` | projects/p1/p1b/xv6/kernel/fs.c:53-76 | Returns the first number whose scanned bit is clear and marks a block of the disk in use; panics if and only if every scanned bit is set. The result is a block of the disk if and only if the disk has a free block, although the scan also tests bits past the size. |
| `Fs.FileSystem.Bfree` | projects/p1/p1b/xv6/kernel/fs.c:79-97 | A used block becomes zero and free, exactly that one; the branch that panics on a free block is dead. |
| `Fs.FileSystem.Bmap` | projects/p1/p1b/xv6/kernel/fs.c:319-347 | The block of a block number, allocated if missing together with the indirect block; everything else of every file is kept and exactly the missing blocks are taken. |
| `Fs.FileSystem.BmapEntry` | projects/p1/p1b/xv6/kernel/fs.c:337-344 | The same for one entry of the indirect block. |
| `Fs.FileSystem.Iupdate` | projects/p1/p1b/xv6/kernel/fs.c:171-187 | The memory inode becomes the inode's entry of the on-disk table; no other block changes. |
| `Fs.FileSystem.Ilock` | projects/p1/p1b/xv6/kernel/fs.c:236-265 | The memory inode equals the disk inode. |
| `Fs.FileSystem.Ialloc` | projects/p1/p1b/xv6/kernel/fs.c:146-168 | The first free inode number from 1 on, now of the type, with no links, device numbers, bytes or blocks; all others and all data as before; -1 (a panic in the code) only if there is none. |
| `Fs.IallocTwice` | projects/p1/p1b/xv6/kernel/fs.c:146-168 | Two calls never return the same inode, and the second leaves the first as it was made. |
| `Fs.FileSystem.ReadBlock` | projects/p1/p1b/xv6/kernel/fs.c:410-415 | The bytes of one block's round of readi are those of the file; nothing is allocated. |
| `Fs.FileSystem.Readi` | projects/p1/p1b/xv6/kernel/fs.c:394-418 | Returns exactly the slice of the file from off, cut at the size, or -1 exactly for an offset past the size or an overflowing sum; changes nothing. |
| `Fs.FileSystem.WriteBlock` | projects/p1/p1b/xv6/kernel/fs.c:438-445 | One round of writei extends the stored range by its chunk and takes exactly the blocks a dense file needs. |
| `Fs.FileSystem.CommitSize` | projects/p1/p1b/xv6/kernel/fs.c:446-450 | The size becomes the end of the write if that is larger, in memory and on disk. |
| `Fs.FileSystem.Writei` | projects/p1/p1b/xv6/kernel/fs.c:421-451 | Replaces exactly the bytes from off, cut at the largest file size, sets the size to the maximum, leaves every other file's bytes and blocks alone, writes the inode through and keeps files without holes; -1 exactly on a bad range. |
| `Fs.FileSystem.FreeDirect` | projects/p1/p1b/xv6/kernel/fs.c:359-364 | Frees exactly the direct blocks of the inode. |
| `Fs.FileSystem.FreeIndirect` | projects/p1/p1b/xv6/kernel/fs.c:366-376 | Frees exactly the entries of the indirect block and the indirect block. |
| `Fs.FileSystem.Itrunc` | projects/p1/p1b/xv6/kernel/fs.c:352-380 | Frees exactly the inode's blocks, leaves it empty in memory and on disk, and no other file moves. |
| `Fs.OtherContentSame` | projects/p1/p1b/xv6/kernel/fs.c:421-451 | If the other inodes keep their names and data, every other file reads the same and stays dense. |
| `Fs.MappedByGrowth` | projects/p1/p1b/xv6/kernel/fs.c:324-331 | A freshly allocated block that fills an empty slot meets bmap's specification, its contents being zero. |
| `Fs.MappedAfterIndirect` | projects/p1/p1b/xv6/kernel/fs.c:334-343 | So does allocating the indirect block first and then its entry, because a free block is zero and so a fresh indirect block holds no names. |
| `Fs.DenseGrows` | projects/p1/p1b/xv6/kernel/fs.c:438-440 | In a file without holes bmap allocates only at the end of the file, and the file stays without holes. |
| `Fs.ReadiAllocatesNothing` | projects/p1/p1b/xv6/kernel/fs.c:410-412 | bmap inside readi never allocates. |
| `Fs.WritingContent` | projects/p1/p1b/xv6/kernel/fs.c:421-451 | The rounds of writei together are one splice of the file's byte sequence. |
| `Fs.ReadAfterWrite` | projects/p1/p1b/xv6/kernel/fs.c:394-451 | Reading the written range back gives the written bytes. |
| `Fs.WrittenBytes` | projects/p1/p1b/xv6/kernel/fs.c:421-451 | After a write each byte of the file is the written one inside the range and the old one outside, and the size is the larger of the old size and the end of the write. |
| `Fs.WriteIsLocal` | projects/p1/p1b/xv6/kernel/fs.c:421-451 | A write changes the contents of no other file. |
| `Fs.TruncateIsLocal` | projects/p1/p1b/xv6/kernel/fs.c:352-380 | Truncation empties one file, keeping its type, device numbers and links, and changes the contents of no other. |
| `Fs.DenseCount` | projects/p1/p1b/xv6/kernel/fs.c:352-380 | A file of n bytes without holes holds exactly the number of blocks that growing it from empty to n bytes takes. |
| `Mkfs.Image.constructor` | projects/p1/p1b/xv6/tools/mkfs.c:67-95 | The fresh image is zero but for the superblock, byte for byte; the inode table is empty, the first data block is next to be handed out, and the allocation invariant holds. |
| `Mkfs.Image.Winode` | projects/p1/p1b/xv6/tools/mkfs.c:256-268 | The inode goes to its slot; the rest of the table, names and free blocks are as before. |
| `Mkfs.Image.Ialloc` | projects/p1/p1b/xv6/tools/mkfs.c:296-308 | The next inode number, now an inode of the type with one link and no device numbers, bytes or blocks; nothing else changes. |
| `Mkfs.Image.MapBlock` | projects/p1/p1b/xv6/tools/mkfs.c:338-356 | The block for a file block number, taking fresh blocks for what is missing: the same specification as the kernel's bmap. |
| `Mkfs.Image.AppendBlock` | projects/p1/p1b/xv6/tools/mkfs.c:335-369 | One round of iappend stores its chunk at the end of the file. |
| `Mkfs.Image.Iappend` | projects/p1/p1b/xv6/tools/mkfs.c:328-375 | The bytes go at the end of the file and nothing else changes: the same specification as the kernel's writei at the end. |
| `Mkfs.Image.Balloc` | projects/p1/p1b/xv6/tools/mkfs.c:310-324 | With the bitmap written, the disk keeps the kernel's block-ownership invariant, and a bit is set exactly for the blocks handed out. |
| `Mkfs.FirstBits` | projects/p1/p1b/xv6/tools/mkfs.c:316-319 | The loop sets exactly the first bits. |
| `Mkfs.ImageContent` | projects/p1/p1b/xv6/tools/mkfs.c:310-375 | Files read the same on the finished disk as while it was built, so the kernel's readi reads back what iappend stored. |
| `Mkfs.AppendThenRead` | projects/p1/p1b/xv6/tools/mkfs.c:310-375 | Appending to a file of the image, writing the bitmap and reading with the kernel's readi on the finished disk gives the slice of the old contents followed by the appended bytes. |
| `FreeList.CanonicalUnique` | projects/p1/p1b/xv6/user/umalloc.c:24-44 | An address-ordered list without adjacent blocks is determined by the set of units it covers. |
| `FreeList.FreedUnits` | projects/p1/p1b/xv6/user/umalloc.c:33-42 | Freeing a block adds exactly its units and leaves an ordered list without adjacent blocks. |
| `FreeList.FreesCommute` | projects/p1/p1b/xv6/user/umalloc.c:24-44 | Two frees give the same list in either order. |
| `FreeList.CarvedUnits` | projects/p1/p1b/xv6/user/umalloc.c:75-84 | Taking n units from a block, whole or from its tail, removes exactly those units and leaves no adjacent blocks. |
| `FreeList.MallocThenFree` | projects/p1/p1b/xv6/user/umalloc.c:24-90 | Freeing what was just taken restores the list. |
| `FreeList.ApartByUnits` | projects/p1/p1b/xv6/user/umalloc.c:30-43 | A block that shares no unit with the list is apart from all its blocks. |
| `Umalloc.Allocator.Search` | projects/p1/p1b/xv6/user/umalloc.c:30-32 | free's ring search ends within one lap, at the ring position whose gap holds the block. |
| `Umalloc.GapIff` | projects/p1/p1b/xv6/user/umalloc.c:30-32 | The loop's test, with its wrap case, succeeds at exactly one header of the ring. |
| `Umalloc.LinkUp` | projects/p1/p1b/xv6/user/umalloc.c:33-37 | The first conditional: the block takes in its upper neighbour if they touch, and only one link still leads past it. |
| `Umalloc.LinkDown` | projects/p1/p1b/xv6/user/umalloc.c:38-42 | The second conditional: the lower neighbour takes the block in if they touch, and the ring is whole again. |
| `Umalloc.Allocator.Link` | projects/p1/p1b/xv6/user/umalloc.c:30-43 | The pointer and size writes turn the ring of a list into the ring of the list with the block freed; no other header changes. |
| `Umalloc.Allocator.Free` | projects/p1/p1b/xv6/user/umalloc.c:24-44 | The block leaves the live set and joins the free list; free and live blocks stay disjoint and together make up all units from sbrk. |
| `Umalloc.Allocator.Morecore` | projects/p1/p1b/xv6/user/umalloc.c:46-61 | All units from sbrk, at least 4096, join the free list, or nothing changes; for unit counts sbrk can be asked for. |
| `Umalloc.Enough` | projects/p1/p1b/xv6/user/umalloc.c:86-89 | After morecore some block is large enough, even if the new memory merged with its neighbour. |
| `Umalloc.Allocator.Take` | projects/p1/p1b/xv6/user/umalloc.c:75-84 | The block is unlinked or its tail carved off; it becomes live. |
| `Umalloc.Allocator.Malloc` | projects/p1/p1b/xv6/user/umalloc.c:63-90 | Takes the first fit going round from the last position, after at most one morecore, and leaves the next search at the block it took from; returns null exactly if nothing fits and sbrk fails; free plus live units equal all units obtained; for all sizes except those that need memory sbrk cannot be asked for. |
| `Umalloc.FreeUndoesMalloc` | projects/p1/p1b/xv6/user/umalloc.c:24-90 | Freeing what malloc returned gives back the list it was taken from. |
| `Umalloc.MallocIsNextFit` | projects/p1/p1b/xv6/user/umalloc.c:68-90 | In addresses: malloc takes the end of the lowest fitting block above freep, or else of the lowest fitting one, and leaves freep at the highest header below that block. |
| `Umalloc.NextBelow` | projects/p1/p1b/xv6/user/umalloc.c:68-90 | Of two calls in a row the second takes the units just below the first one's if the block has room for both. |
| `Umalloc.MallocTwice` | projects/p1/p1b/xv6/user/umalloc.c:63-90 | The same of the calls themselves; the two blocks are distinct and new. |
| `Umalloc.FreeLeavesBelow` | projects/p1/p1b/xv6/user/umalloc.c:30-43 | free leaves freep at the highest header below the block it was given. |
| `Umalloc.UnitsHold` | projects/p1/p1b/xv6/user/umalloc.c:69-69 | The units after the header hold the bytes asked for, with less than a header to spare, if and only if rounding them up does not wrap; otherwise there are none. |
| `Umalloc.GenuineRequest` | projects/p1/p1b/xv6/user/umalloc.c:46-54 | sbrk is asked for the number of bytes that morecore then uses if and only if malloc was asked for at most 2^31 - 16 or for one of the last seven sizes, which become a block of one unit. |
| `Umalloc.BeyondRequest` | projects/p1/p1b/xv6/user/umalloc.c:46-54 | One byte more asks sbrk for -2^31 bytes, and the last size whose rounding does not wrap asks for 0. |
| `Shell.Parser.GetToken` | projects/p1/p1b/xv6/user/sh.c:264-307 | Returns the token at the cursor and its span and moves past it and the blanks, as the token function says. |
| `Shell.Parser.Peek` | projects/p1/p1b/xv6/user/sh.c:309-319 | Skips blanks and tells whether the next character is one of the given ones. |
| `Shell.Parser.ParseRedirs` | projects/p1/p1b/xv6/user/sh.c:373-396 | Wraps the command in the redirections at the cursor, or stops for a missing file name. |
| `Shell.Parser.ParseBlock` | projects/p1/p1b/xv6/user/sh.c:398-412 | Parses a parenthesised line and its redirections. |
| `Shell.Parser.ParseExec` | projects/p1/p1b/xv6/user/sh.c:414-445 | Parses a block, or words and redirections. |
| `Shell.Parser.ParseArgs` | projects/p1/p1b/xv6/user/sh.c:425-441 | The argument loop: at most 9 words, redirections between them. |
| `Shell.Parser.ParsePipe` | projects/p1/p1b/xv6/user/sh.c:360-371 | Parses a pipeline. |
| `Shell.Parser.ParseLine` | projects/p1/p1b/xv6/user/sh.c:343-358 | Parses background marks and a command list. |
| `Shell.Parser.ParseBacks` | projects/p1/p1b/xv6/user/sh.c:348-351 | Wraps the command once for each background mark. |
| `Shell.Parser.ParseCmd` | projects/p1/p1b/xv6/user/sh.c:326-341 | Parses a line and accepts it only if nothing is left. |
| `Shell.Parsecmd` | projects/p1/p1b/xv6/user/sh.c:326-341 | Parses, then terminates the words in the buffer: the tree read from the buffer, every argument and file name up to its first NUL, is the tree of the words as they stood in the text; every character that does not end a word is as before. |
| `Shell.NulTerminate` | projects/p1/p1b/xv6/user/sh.c:447-492 | Writes a NUL at the end of every argument and file name of the tree and nowhere else. |
| `Shell.LineDelimited` | projects/p1/p1b/xv6/user/sh.c:264-307 | Every word the parser records is a maximal run of word characters. |
| `Shell.TerminationHarmless` | projects/p1/p1b/xv6/user/sh.c:447-492 | No recorded end lies inside another recorded word, so termination cuts no word short. |
| `Shell.ReadsBack` | projects/p1/p1b/xv6/user/sh.c:447-492 | If every word reads back as its slice of the text, the whole tree does. |
| `ShellGrammar.TokenIsNext` | projects/p1/p1b/xv6/user/sh.c:264-307 | gettoken finds the longest run of word characters, or >>, or one operator, after all blanks, and the end exactly if only blanks are left. |
| `ShellGrammar.NextIsOne` | projects/p1/p1b/xv6/user/sh.c:264-307 | There is one such token at any place. |
| `ShellGrammar.LineSound` | projects/p1/p1b/xv6/user/sh.c:343-358 | What parseline accepts is a line of the grammar, with the tree the grammar gives it. |
| `ShellGrammar.LineComplete` | projects/p1/p1b/xv6/user/sh.c:343-358 | Every line of the grammar, at the end or before a closing parenthesis, is accepted with its tree. |
| `ShellGrammar.ExecSound` | projects/p1/p1b/xv6/user/sh.c:398-445 | What parseexec accepts is at most nine words and redirections in any order, or a line in parentheses and redirections. |
| `ShellGrammar.ExecComplete` | projects/p1/p1b/xv6/user/sh.c:398-445 | Every such command is accepted, up to an operator that ends it. |
| `ShellGrammar.ParserIsGrammar` | projects/p1/p1b/xv6/user/sh.c:326-445 | parsecmd accepts a text with a tree if and only if the grammar derives that tree from its tokens. |
| `ShellGrammar.OneTree` | projects/p1/p1b/xv6/user/sh.c:326-445 | A text has at most one tree. |
| `ShellGrammar.ReadCommand` | projects/p1/p1b/xv6/user/sh.c:326-341 | parsecmd fails exactly on texts outside the language, and otherwise its tree is the grammar's and its words stand in the buffer as strings. |
| `ShellPrint.Decompose` | projects/p1/p1b/xv6/user/sh.c:373-396 | A chain of redirections is its base and the redirections innermost first, in print and as a tree. |
| `ShellPrint.RedirsParse` | projects/p1/p1b/xv6/user/sh.c:373-396 | Parsing printed redirections wraps the command in them, in order. |
| `ShellPrint.ArgsParse` | projects/p1/p1b/xv6/user/sh.c:425-441 | Parsing printed words and redirections adds them, up to 9 words in all. |
| `ShellPrint.ExecRoundTrip` | projects/p1/p1b/xv6/user/sh.c:414-445 | parseexec reads a printed simple command or block back. |
| `ShellPrint.PipeRoundTrip` | projects/p1/p1b/xv6/user/sh.c:360-371 | parsepipe reads a printed pipeline back. |
| `ShellPrint.BackRoundTrip` | projects/p1/p1b/xv6/user/sh.c:343-351 | Printed background marks are read back one by one. |
| `ShellPrint.LineRoundTrip` | projects/p1/p1b/xv6/user/sh.c:343-358 | parseline reads a printed line back. |
| `ShellPrint.RoundTrip` | projects/p1/p1b/xv6/user/sh.c:326-341 | Printing any well-formed command tree and parsing the result gives the same tree and consumes the whole input. |
| `ShellPrint.ReadPrinted` | projects/p1/p1b/xv6/user/sh.c:326-341 | A printed tree in a buffer, parsed and terminated in place, reads as that tree. |
| `MlfqSpec.StepOk` | projects/p2/p2b/xv6/xv6/kernel/proc.c:51-677 | Every operation keeps levels within 0 to 3 and exactly the process on the CPU running. |
| `MlfqSpec.StarvingStep` | projects/p2/p2b/xv6/xv6/kernel/proc.c:653-677 | A step during which a process stays runnable moves it only in a sweep, and then up one level exactly when laststate shows no movement. |
| `MlfqSpec.TrackedRun` | projects/p2/p2b/xv6/xv6/kernel/proc.c:653-677 | Over every run in which a recorded process stays runnable and undispatched, its level falls by one at each sweep, down to 0. |
| `MlfqSpec.AntiStarvation` | projects/p2/p2b/xv6/xv6/kernel/proc.c:653-677 | After k + 1 sweeps without a dispatch a process is at level max(0, L - k), L being its level after the first, whatever else runs. |
| `MlfqSpec.SliceStep` | projects/p2/p2b/xv6/xv6/kernel/proc.c:431-445 | Every step keeps the dispatches of a stay within the used part of the slice, boosts included. |
| `MlfqSpec.StayIsBounded` | projects/p2/p2b/xv6/xv6/kernel/proc.c:431-445 | Over every run, the dispatches of one stay at a level below the last number less than the level's slice. |
| `MlfqSpec.FullSliceDemotes` | projects/p2/p2b/xv6/xv6/kernel/proc.c:431-445 | The dispatch that completes a slice moves the process down a level. |
| `MlfqSpec.DispatchEffect` | projects/p2/p2b/xv6/xv6/kernel/proc.c:431-445 | A dispatch adds one tick at the level, moves the process down exactly if the count is then a multiple of 5, 5 or 10 at level 0, 1 or 2, never from level 3, and changes nothing else and no other process. |
| `MlfqSpec.StayUses` | projects/p2/p2b/xv6/xv6/kernel/proc.c:431-445 | Over a whole stay, whatever else runs, each dispatch uses one tick of the slice. |
| `MlfqSpec.StayIsExact` | projects/p2/p2b/xv6/xv6/kernel/proc.c:431-445 | A stay ends, if by a dispatch, at exactly the dispatch that fills the slice. |
| `MlfqSpec.LastLevelStays` | projects/p2/p2b/xv6/xv6/kernel/proc.c:434-440 | No dispatch moves a process from the last level. |
| `MlfqSpec.SliceIsUnused` | projects/p2/p2b/xv6/xv6/kernel/proc.c:666-671 | A new process and a boosted one begin with an unused slice. |
| `MlfqSpec.BoostEffect` | projects/p2/p2b/xv6/xv6/kernel/proc.c:652-677 | The sweep moves a runnable process up exactly if it is above level 0 with the level and the ticks recorded for it, to the slice value of its new level, and records every runnable process as it then is. |
| `MlfqSpec.ForkEffect` | projects/p2/p2b/xv6/xv6/kernel/proc.c:51-218 | fork takes the first unused slot: a new pid, level 0, no ticks; runnable with its parent, or unused again. |
| `MlfqSpec.ExitEffect` | projects/p2/p2b/xv6/xv6/kernel/proc.c:223-277 | exit, field by field: who wakes, who gets a new parent, and the zombie. |
| `MlfqSpec.ReapEffect` | projects/p2/p2b/xv6/xv6/kernel/proc.c:281-324 | wait frees the first zombie child of the caller, and only it. |
| `MlfqSpec.YieldEffect` | projects/p2/p2b/xv6/xv6/kernel/proc.c:500-586 | yield and sleep change the process on the CPU only. |
| `MlfqSpec.WakeupEffect` | projects/p2/p2b/xv6/xv6/kernel/proc.c:590-621 | wakeup makes exactly the sleepers on the channel runnable. |
| `MlfqSpec.KillEffect` | projects/p2/p2b/xv6/xv6/kernel/proc.c:626-649 | kill marks the first slot with the pid, and wakes it if it sleeps. |
| `Mlfq.RoundRobin` | projects/p2/p2b/xv6/xv6/kernel/proc.c:348-470 | A process runnable at the level in use is dispatched before as many slices have been completed as there are slots from the scan's place to its own, so before 64. |
| `Mlfq.HighestIsMinimal` | projects/p2/p2b/xv6/xv6/kernel/proc.c:356-360 | With nobody on the CPU, the first non-zero counter (or the last level) is the least level of a runnable process, and one is there. |
| `Mlfq.Kernel.constructor` | projects/p2/p2b/xv6/xv6/kernel/proc.c:120-154 | After boot the first process is runnable at level 0 with no ticks, all other slots are unused, and the counters agree with the table. |
| `Mlfq.Kernel.Allocproc` | projects/p2/p2b/xv6/xv6/kernel/proc.c:51-117 | The first unused slot becomes an embryo at level 0 with the next pid, or is put back; counters agree. |
| `Mlfq.Kernel.Fork` | projects/p2/p2b/xv6/xv6/kernel/proc.c:178-218 | One fork step of the specification; the child is counted at level 0. |
| `Mlfq.Kernel.Exit` | projects/p2/p2b/xv6/xv6/kernel/proc.c:223-277 | One exit step: waiting parent and init woken, children handed over, the counter of the level down by one. |
| `Mlfq.Kernel.HandOn` | projects/p2/p2b/xv6/xv6/kernel/proc.c:248-255 | The reparenting loop, which wakes init exactly if an abandoned child is a zombie. |
| `Mlfq.Kernel.Wait` | projects/p2/p2b/xv6/xv6/kernel/proc.c:281-324 | One pass of wait: a zombie child is freed and its pid returned, -1 without children or when killed, else sleep. |
| `Mlfq.Kernel.Yield` | projects/p2/p2b/xv6/xv6/kernel/proc.c:500-524 | One yield step; the counters need no change. |
| `Mlfq.Kernel.Sleep` | projects/p2/p2b/xv6/xv6/kernel/proc.c:539-586 | One sleep step; the level's counter goes down. |
| `Mlfq.Kernel.Wakeup1` | projects/p2/p2b/xv6/xv6/kernel/proc.c:590-612 | Exactly the sleepers on the channel become runnable, and their levels' counters go up. |
| `Mlfq.Kernel.Wakeup` | projects/p2/p2b/xv6/xv6/kernel/proc.c:615-621 | One wakeup step. |
| `Mlfq.Kernel.Kill` | projects/p2/p2b/xv6/xv6/kernel/proc.c:626-649 | One kill step: the first slot with the pid is marked, and woken and counted if it slept. |
| `Mlfq.Kernel.CheckStarveAndBoost` | projects/p2/p2b/xv6/xv6/kernel/proc.c:652-677 | One sweep over all slots: stuck runnable processes move up a level, laststate is recorded, counters follow. |
| `Mlfq.Kernel.HighestLevel` | projects/p2/p2b/xv6/xv6/kernel/proc.c:356-360 | The loop over the counters finds the first non-zero one. |
| `Mlfq.Kernel.Pick` | projects/p2/p2b/xv6/xv6/kernel/proc.c:419-445 | One dispatch step: running, one more tick, down a level at the end of a slice with both counters moved; tells whether the scan stays on the slot. |
| `Mlfq.Kernel.Pass` | projects/p2/p2b/xv6/xv6/kernel/proc.c:351-377 | The inner loop: up to the first slot that is dispatched or makes the scan start again. |
| `Mlfq.Kernel.Scan` | projects/p2/p2b/xv6/xv6/kernel/proc.c:347-377 | From any position the scan finds a process of least level, the next one in slot order, with at most one restart and at most 128 slots looked at from the start of the table; it finds none exactly if nothing it would visit is runnable. |
| `Mlfq.Kernel.Schedule` | projects/p2/p2b/xv6/xv6/kernel/proc.c:333-477 | One round of the scheduler up to a dispatch is one dispatch step of a process of least level: of the runnable slots at its level the first at or after the scan's place, or else the first; the scan resumes on the same slot while the slice lasts and after it otherwise. |
| `ShmSpec.ShmtopIsHigh` | projects/p3/p3b/xv6/kernel/vm.c:489-493 | At most 32 pages are shared, so shmtop stays at least USERTOP - 32 pages and shmgetat's subtraction cannot wrap. |
| `ShmSpec.AttachTiles` | projects/p3/p3b/xv6/kernel/vm.c:495-513 | Attaching pages just below shmtop keeps the attached regions tiling [shmtop, USERTOP) without gap or overlap. |
| `ShmSpec.SharedIsMapped` | projects/p3/p3b/xv6/kernel/vm.c:341-350 | Every page from shmtop up is mapped, so copyuvm does not find one missing there. |
| `ShmSpec.SameFrames` | projects/p3/p3b/xv6/kernel/vm.c:496-513 | Two processes attached to a region map the same frame at the same offset from their own start of it. |
| `ShmSpec.BoundIsEnd` | projects/p3/p3b/xv6/kernel/syscall.c:31-37 | The least region start above an address is where the region containing the address ends. |
| `Shm.Allocuvm` | projects/p3/p3b/xv6/kernel/vm.c:239-265 | Adds every page from the old to the new size, page j on the frame of the j-th kalloc, exactly if there is a frame for each, and none otherwise; refuses to pass shmtop. |
| `Shm.Deallocuvm` | projects/p3/p3b/xv6/kernel/vm.c:271-292 | Removes exactly the pages between the two sizes. |
| `Shm.Copyuvm` | projects/p3/p3b/xv6/kernel/vm.c:318-357 | A copy has page j below the size on the frame of the j-th kalloc and the same frames from shmtop up. It stops on a missing page if and only if every page before it got a frame, and for memory if and only if there was no directory or a frame ran out before any missing page. |
| `Shm.LoadImage` | projects/p3/p3b/xv6/kernel/exec.c:34-54 | Succeeds if and only if the segments and a stack page fit below the caller's shmtop, the first segment is not empty and each allocation gets its frames; the new image then has exactly the pages below its size, each on the frame allocated for it, the stack page past the highest segment end. |
| `Shm.Kernel.constructor` | projects/p3/p3b/xv6/kernel/vm.c:399-408 | After boot no region is in use and the invariant holds. |
| `Shm.Kernel.MapRegion` | projects/p3/p3b/xv6/kernel/vm.c:495-509 | The loop enters exactly the region's pages below shmtop, page i on frame i, and changes no other region's frames; it panics if and only if the region is new and a frame for one of its pages is missing. |
| `Shm.Kernel.Attach` | projects/p3/p3b/xv6/kernel/vm.c:495-517 | The attach step keeps the invariant and returns the new shmtop; it panics exactly if a new region lacks a frame. |
| `Shm.Kernel.Shmgetat` | projects/p3/p3b/xv6/kernel/vm.c:452-518 | All cases of the call: bad key, already attached, bad page count, no room (the state unchanged), or attached with the count up by one; -1 exactly for a new region of no pages or more than four, or if sz would be passed; a panic if and only if the request for a new region is in order and a frame for one of its pages is missing. |
| `Shm.JoinedFields` | projects/p3/p3b/xv6/kernel/vm.c:495-517 | Attaching, field by field: the region starts at the new shmtop, its page i is i + 1 pages below the old one on the region's frame i, and every other mapping is as before. |
| `Shm.Kernel.ShmRefcount` | projects/p3/p3b/xv6/kernel/vm.c:414-418 | The number of attached processes, plus what failed forks left behind. |
| `Shm.Kernel.ShmDecreaseCount` | projects/p3/p3b/xv6/kernel/vm.c:421-435 | The count goes down by one and, when it reaches 0, exactly this region's frames are given up. |
| `Shm.Kernel.Growproc` | projects/p3/p3b/xv6/kernel/proc.c:114-130 | sbrk keeps the invariant; it grows by everything if and only if there is room below shmtop and a frame for each page, else by nothing; shared pages never change. |
| `Shm.Resize` | projects/p3/p3b/xv6/kernel/proc.c:114-130 | The arithmetic of growproc modulo 2^32 with 0 read as failure; which outcome occurs is decided by the sizes and the frames asked for. |
| `Shm.WholeUnlessEmptied` | projects/p3/p3b/xv6/kernel/proc.c:123-127 | The pages below the size stay complete if and only if the request is not to shrink a non-empty process to exactly 0: that frees every page, reports failure and keeps the size. |
| `Shm.Kernel.Allocproc` | projects/p3/p3b/xv6/kernel/proc.c:32-80 | A new slot holds no region. |
| `Shm.Kernel.Inherit` | projects/p3/p3b/xv6/kernel/proc.c:145-150 | The child takes over exactly the parent's regions, each counted once. |
| `Shm.Kernel.Populate` | projects/p3/p3b/xv6/kernel/proc.c:145-177 | The child is a copy and the counts exact, or a page is missing, or frames run out, each exactly when the parent's pages and the frames say so; without memory the slot is unused and only the counts already raised are lost. |
| `Shm.Kernel.Fork` | projects/p3/p3b/xv6/kernel/proc.c:135-178 | The child shares every region of the parent at the same addresses and each count goes up by one. With a slot and a stack, it panics if and only if it meets a page missing below the size, and the parent's counts are lost if and only if there is no directory or too few frames for the size; no others ever. |
| `Shm.Kernel.Exit` | projects/p3/p3b/xv6/kernel/proc.c:217-219 | A zombie keeps its regions. |
| `Shm.Kernel.Reap` | projects/p3/p3b/xv6/kernel/proc.c:241-260 | wait counts the dead child out of exactly its regions; regions still in use keep their frames. |
| `Shm.Kernel.DropRegions` | projects/p3/p3b/xv6/kernel/exec.c:83-91 | exec's loop counts the process out of exactly its regions and forgets them. |
| `Shm.Kernel.Exec` | projects/p3/p3b/xv6/kernel/exec.c:9-110 | exec succeeds, replacing the image by a complete one without regions, each page on the frame allocated for it, if and only if the file is in order, it fits below shmtop and each allocation gets its frames; otherwise it leaves everything as it was. |
| `Shm.GetShmBound` | projects/p3/p3b/xv6/kernel/syscall.c:19-39 | For an address in a shared region, exactly that region's end. |
| `Shm.Fetchint` | projects/p3/p3b/xv6/kernel/syscall.c:41-57 | Succeeds if and only if the 4 bytes lie in [0, sz) or in one single region. |
| `Shm.Argptr` | projects/p3/p3b/xv6/kernel/syscall.c:94-118 | Accepts a buffer if and only if it lies in [0, sz) or in one single region; a negative size passes exactly if it starts there and does not reach below 0. |
| `Shm.Fetchstr` | projects/p3/p3b/xv6/kernel/syscall.c:62-82 | Returns the length of the string if its NUL lies in the same area, and -1 exactly if no NUL does. |
| `Shm.EmptiedExample` | projects/p3/p3b/xv6/kernel/proc.c:123-127 | sbrk by minus the whole size on a one-page process fails, frees the page and keeps the size; the fork after it panics. |
| `Shm.LeakExample` | projects/p3/p3b/xv6/kernel/proc.c:145-159 | After one shmgetat and one fork without memory, one process holds the region and its count is 2. |
| `ShmIsolation.ForkIsolates` | projects/p3/p3b/xv6/kernel/proc.c:135-178 | If kalloc hands out new frames, no page of the child below its size shares a frame with any process or with another of its pages, and all private memory stays private. |
| `ShmIsolation.GrowprocIsolates` | projects/p3/p3b/xv6/kernel/proc.c:114-130 | So does sbrk keep all private memory private. |
| `ShmIsolation.ShmgetatIsolates` | projects/p3/p3b/xv6/kernel/vm.c:452-518 | So does attaching a region, new or in use. |
| `ShmIsolation.ExecIsolates` | projects/p3/p3b/xv6/kernel/exec.c:9-110 | So does exec: every page of the new image is on a new frame of its own. |
| `ShmIsolation.RestateIsolates` | projects/p3/p3b/xv6/kernel/proc.c:182-260 | So do exit and wait. |
| `ShmIsolation.SafeBoot` | projects/p3/p3b/xv6/kernel/vm.c:399-408 | Private memory is private after boot. |
| `ShmIsolation.SafeFork` | projects/p3/p3b/xv6/kernel/proc.c:135-178 | A successful fork keeps the kernel's state safe, and no other process maps a frame of the child's memory. |
| `ShmIsolation.SafeGrowproc` | projects/p3/p3b/xv6/kernel/proc.c:114-130 | sbrk keeps it safe. |
| `ShmIsolation.SafeShmgetat` | projects/p3/p3b/xv6/kernel/vm.c:452-518 | shmgetat keeps it safe. |
| `ShmIsolation.SafeExec` | projects/p3/p3b/xv6/kernel/exec.c:9-110 | exec keeps it safe. |
| `ShmIsolation.SafeExit` | projects/p3/p3b/xv6/kernel/proc.c:182-219 | exit keeps it safe. |
| `ShmIsolation.SafeReap` | projects/p3/p3b/xv6/kernel/proc.c:241-260 | wait keeps it safe. |
| `VmSpec.FreeListPush` | projects/p1/p1b/xv6/kernel/kalloc.c:38-54 | Pushing a frame keeps the list threaded through the frames' first words. |
| `VmSpec.FreeListTail` | projects/p1/p1b/xv6/kernel/kalloc.c:59-70 | The link in the first frame leads to the rest of the list. |
| `VmSpec.NewTable` | projects/p1/p1b/xv6/kernel/vm.c:62-70 | A zeroed frame entered in the directory is an empty page table. |
| `VmSpec.WriteEntry` | projects/p1/p1b/xv6/kernel/vm.c:91-91 | Storing a page-table entry changes exactly that page of the address space. |
| `VmSpec.ClearEntry` | projects/p1/p1b/xv6/kernel/vm.c:274-274 | Clearing one removes exactly that page. |
| `VmSpec.OthersKept` | projects/p1/p1b/xv6/kernel/vm.c:228-278 | Writing tables, free frames and the frames of a range of pages changes the contents of no page outside the range. |
| `Vm.Machine.constructor` | projects/p1/p1b/xv6/kernel/kalloc.c:22-32 | kinit puts every frame after the kernel on the free list, the highest first. |
| `Vm.Machine.Kfree` | projects/p1/p1b/xv6/kernel/kalloc.c:38-54 | The frame is first on the list; only it was written. |
| `Vm.Machine.Kalloc` | projects/p1/p1b/xv6/kernel/kalloc.c:59-70 | The first frame of the list, or 0 exactly if it is empty. |
| `Vm.Machine.Walkpgdir` | projects/p1/p1b/xv6/kernel/vm.c:52-72 | The word that holds the page's entry; a missing table is made from the next free frame if asked; otherwise nothing changes. |
| `Vm.Machine.MapPage` | projects/p1/p1b/xv6/kernel/vm.c:86-91 | One page entered; it fails only without a free frame for a missing table, and not at all if the table is there. |
| `Vm.Machine.Mappages` | projects/p1/p1b/xv6/kernel/vm.c:77-98 | Exactly the pages of the range are entered, on consecutive addresses; it cannot fail where the tables exist. |
| `Vm.KmapFacts` | projects/p1/p1b/xv6/kernel/vm.c:122-131 | The kernel's ranges are disjoint and increasing and the first lies under directory entry 0. |
| `Vm.Machine.KernelMaps` | projects/p1/p1b/xv6/kernel/vm.c:143-146 | The loop over kmap maps exactly the kernel's pages to themselves and installs the table that covers user space; it takes exactly 12 frames for tables, and fails if and only if there are fewer. |
| `Vm.Machine.Setupkvm` | projects/p1/p1b/xv6/kernel/vm.c:134-149 | Succeeds if and only if 13 frames are free, the directory and 12 tables, and takes those; the new space has exactly the kernel's entries and no user page. Otherwise no frame is left and none in use was written. |
| `Vm.Machine.AddPage` | projects/p1/p1b/xv6/kernel/vm.c:241-248 | With the table there, adding a user page takes the next free frame and cannot fail in mappages. |
| `Vm.Machine.FreePage` | projects/p1/p1b/xv6/kernel/vm.c:268-275 | A present page's frame goes back and its entry is cleared; an absent page changes nothing; no other page's contents change. |
| `Vm.Machine.Deallocuvm` | projects/p1/p1b/xv6/kernel/vm.c:257-278 | Exactly the pages between the sizes go, and their frames are pushed in page order; the pages that stay keep their contents and flags. |
| `Vm.Machine.Allocuvm` | projects/p1/p1b/xv6/kernel/vm.c:228-251 | Either every page is added, on the next free frames in order and zeroed, or the space is as before and the free list exactly the old one reversed; which of the two is decided by the length of the list. The pages already there keep their contents, and the user flag marks the pages below USERTOP if it did before. |
| `Vm.UndoneIs` | projects/p1/p1b/xv6/kernel/vm.c:242-245 | The clean-up after a failure finds exactly the frames that were taken. |
| `Vm.Machine.Freevm` | projects/p1/p1b/xv6/kernel/vm.c:282-295 | All frames of the space, user pages, tables and directory, are free again, and no others. |
| `Vm.Machine.Copyuvm` | projects/p1/p1b/xv6/kernel/vm.c:299-326 | Succeeds if and only if 13 frames and one for each page are free. The copy has each page's contents on a frame of its own, the original is untouched and free frames are conserved; a failure writes only frames that were free, and gives every frame back if 13 were free. |
| `PageBytes.SetBytesAt` | projects/p1/p1b/xv6/kernel/vm.c:360-360 | Moving bytes into a page changes exactly those bytes of it. |
| `PageBytes.LittleEndian` | projects/p1/p1b/xv6/kernel/vm.c:360-360 | The four bytes of a word of memory, least significant first. |
| `PageBytes.StoredMore` | projects/p1/p1b/xv6/kernel/vm.c:352-364 | One more piece inside one page extends the stored range of user memory and changes no other user byte. |
| `Vm.Machine.Uva2ka` | projects/p1/p1b/xv6/kernel/vm.c:328-340 | The frame behind a user address, 0 exactly if user code may not use the page. |
| `Vm.Machine.Copyout` | projects/p1/p1b/xv6/kernel/vm.c:342-366 | Stores exactly the bytes from the address on, across pages, and changes no other user byte; -1 exactly if it meets a page user code may not use, with everything before that page stored. |
| `Vm.CopyHasFlags` | projects/p1/p1b/xv6/kernel/vm.c:335-338 | In the spaces setupkvm and copyuvm make, the user flag marks exactly the pages below USERTOP. |
| `VmMmu.MmuSees` | projects/p1/p1b/xv6/kernel/vm.c:52-72 | The processor's walk of the directory and the tables finds exactly the pages of the space, with the flags of their entries. |
| `VmMmu.KernelSeen` | projects/p1/p1b/xv6/kernel/vm.c:122-149 | In a new space an address translates to itself exactly between USERTOP and the end of memory and for the devices; the kernel's code is read-only and user code may use none of it. |
| `VmMmu.GrownSeen` | projects/p1/p1b/xv6/kernel/vm.c:228-251 | After allocuvm each new address reaches its place in the next free frames, for user code to read and write, and every other address translates as before. |
| `VmMmu.ShrunkSeen` | projects/p1/p1b/xv6/kernel/vm.c:257-278 | After deallocuvm exactly the addresses of the pages between the sizes fault. |
| `VmMmu.CopySeen` | projects/p1/p1b/xv6/kernel/vm.c:299-326 | In a copy each user address reaches a frame with the original's contents, for user code to read and write, and the kernel's half is as in every space. |
| `Ring.Unlinked` | projects/p1/p1b/xv6/kernel/bio.c:126-127 | The two writes take exactly one buffer out of the ring. |
| `Ring.PutFirst` | projects/p1/p1b/xv6/kernel/bio.c:128-131 | The four writes put a buffer right after the head. |
| `Bcache.Cache.constructor` | projects/p1/p1b/xv6/kernel/bio.c:39-56 | binit links all buffers into one ring; all are idle and empty. |
| `Bcache.Cache.Find` | projects/p1/p1b/xv6/kernel/bio.c:70-71 | The forward walk finds the buffer of the sector if and only if there is one. |
| `Bcache.Cache.Victim` | projects/p1/p1b/xv6/kernel/bio.c:83-84 | The backward walk finds the idle buffer released longest ago, none exactly if all are busy. |
| `Bcache.Cache.Bget` | projects/p1/p1b/xv6/kernel/bio.c:61-93 | The buffer of the sector, made busy or waited for; else the idle buffer released longest ago, reassigned; never two buffers of one sector; a panic only if all are busy. |
| `Bcache.Cache.Bread` | projects/p1/p1b/xv6/kernel/bio.c:96-105 | A buffer returned without waiting holds the last data written to its sector; any other is now last in the disk queue. |
| `Bcache.Cache.Enqueue` | projects/p1/p1b/xv6/kernel/ide.c:135-145 | The request goes to the end of the queue and starts at once exactly if the queue was empty. |
| `Bcache.Cache.Bwrite` | projects/p1/p1b/xv6/kernel/bio.c:108-115 | The buffer's data become the sector's last written data and its request is last in the queue. |
| `Bcache.Cache.Ideintr` | projects/p1/p1b/xv6/kernel/ide.c:90-118 | The interrupt completes exactly the oldest request: the buffer is valid, clean and holds the last data written to its sector; the next request starts. |
| `Bcache.ServedData` | projects/p1/p1b/xv6/kernel/ide.c:104-106 | When a read is served the disk already has the last data written to its sector. |
| `Bcache.Cache.Brelse` | projects/p1/p1b/xv6/kernel/bio.c:118-137 | The buffer is idle and first in the ring; a written-through idle buffer equals its sector. |
| `Bcache.Cache.ToFront` | projects/p1/p1b/xv6/kernel/bio.c:126-131 | The ring stays a permutation of all buffers, in order of release. |
| `Pipe.Tests` | projects/p1/p1b/xv6/kernel/pipe.c:82-103 | The tests for empty and full are right although the counters wrap modulo 2^32. |
| `Pipe.Put` | projects/p1/p1b/xv6/kernel/pipe.c:90-90 | A byte put into a pipe that is not full keeps the first-in first-out invariant across the wrap. |
| `Pipe.Get` | projects/p1/p1b/xv6/kernel/pipe.c:111-113 | A byte taken is the oldest byte not yet taken. |
| `Pipe.PipeBuffer.constructor` | projects/p1/p1b/xv6/kernel/pipe.c:32-36 | An empty pipe, both ends open. |
| `Pipe.PipeBuffer.Write` | projects/p1/p1b/xv6/kernel/pipe.c:75-95 | Appends the buffer, or the part before it sleeps or fails; it sleeps only when full with the read end open; a wakeup is lost if and only if the writer is killed, a reader is asleep and more than 512 bytes are left. |
| `Pipe.PipeBuffer.Read` | projects/p1/p1b/xv6/kernel/pipe.c:97-118 | Returns the next min(n, available) bytes in order, sleeps exactly if empty with the write end open, and wakes the writers. |
| `Pipe.PipeBuffer.Close` | projects/p1/p1b/xv6/kernel/pipe.c:57-73 | Closing an end wakes whoever waits for the other side. |
| `Pipe.StrandedReader` | projects/p1/p1b/xv6/kernel/pipe.c:82-86 | A reader asleep on an empty pipe sleeps on with 512 bytes there after a killed writer returned. |
| `Server.PutKeeps` | projects/p4/p4a/server.c:140-143 | Storing at the write index and advancing both keeps write = (read + count) mod numbuff. |
| `Server.TakeKeeps` | projects/p4/p4a/server.c:69-73 | Taking at the read index yields the oldest waiting connection and keeps the indices in step. |
| `Server.Queue.constructor` | projects/p4/p4a/server.c:106-111 | An empty buffer. |
| `Server.Queue.Put` | projects/p4/p4a/server.c:132-146 | The connection is last in accept order, or the accept loop waits exactly because the buffer is full; no signal is lost. |
| `Server.Queue.Take` | projects/p4/p4a/server.c:60-75 | The worker gets the next connection in accept order, each exactly once, or waits exactly because there is none; no signal is lost. |
| `Server.Queue.Spurious` | projects/p4/p4a/server.c:64-68 | A wakeup without a signal keeps all of this. |
| `ProcTree.Table.constructor` | projects/p1/p1b/xv6/kernel/proc.c:75-103 | After boot init is the only process, runnable with pid 1. |
| `ProcTree.Table.Allocproc` | projects/p1/p1b/xv6/kernel/proc.c:31-73 | The first unused slot becomes an embryo with the next pid, or nothing in use changes. |
| `ProcTree.Table.GiveUp` | projects/p1/p1b/xv6/kernel/proc.c:139-144 | A fork that fails puts the slot back. |
| `ProcTree.Table.Born` | projects/p1/p1b/xv6/kernel/proc.c:146-160 | The child is runnable and its parent is there. |
| `ProcTree.Table.Wakeup1` | projects/p1/p1b/xv6/kernel/proc.c:369-377 | Exactly the sleepers on the channel become runnable. |
| `ProcTree.Table.Exit` | projects/p1/p1b/xv6/kernel/proc.c:166-204 | The process is a zombie, its children are init's, and exactly those who sleep for its parent, or for init if it left a zombie, are awake; nothing else changes; the tree invariant, single reaping and no lost wakeup are kept. |
| `ProcTree.ExitTree` | projects/p1/p1b/xv6/kernel/proc.c:186-201 | After exit every process but init has a parent that is neither unused nor zombie, and nobody sleeps in wait with a zombie child. |
| `ProcTree.ExitReaping` | projects/p1/p1b/xv6/kernel/proc.c:200-203 | The exited pid is new among the exited ones and waits to be returned. |
| `ProcTree.ReapKeeps` | projects/p1/p1b/xv6/kernel/proc.c:222-234 | Reaping a zombie keeps the tree and the pid that was returned is never returned again. |
| `ProcTree.Table.Wait` | projects/p1/p1b/xv6/kernel/proc.c:208-247 | Returns the pid of the first zombie child of the caller, one never returned before; -1 exactly without children or when killed; else sleeps, and then no child is a zombie. |
| `ProcTree.Table.Sleep` | projects/p1/p1b/xv6/kernel/proc.c:333-365 | A sleep on any other channel keeps the invariants. |
| `ProcTree.Table.Switch` | projects/p1/p1b/xv6/kernel/proc.c:310-317 | So do yield and the scheduler's pick. |
| `ProcTree.Table.Kill` | projects/p1/p1b/xv6/kernel/proc.c:391-409 | Marks the first slot with the pid and wakes it; -1 exactly if there is none. |
| `Regex.MatchesFrom` | projects/p1/p1b/xv6/user/grep.c:84-95 | A match of an element and then a pattern is a piece for the element and a match of the pattern on what follows. |
| `Regex.MatchesMany` | projects/p1/p1b/xv6/user/grep.c:98-105 | c* and then a pattern matches exactly if the pattern matches at some place up to which all characters fit c. |
| `Regex.EndAnchor` | projects/p1/p1b/xv6/user/grep.c:90-91 | A final $ matches exactly at the end of the text. |
| `Regex.Constructs` | projects/p1/p1b/xv6/user/grep.c:84-105 | The constructs as written: the empty pattern, a final $, c*, a dot and any other character, each by what follows it. |
| `Regex.Anchored` | projects/p1/p1b/xv6/user/grep.c:71-82 | A leading ^ ties the match to the beginning; otherwise it may begin anywhere, the end included. |
| `Regex.MatchHere` | projects/p1/p1b/xv6/user/grep.c:84-95 | True if and only if a prefix of the text is in the pattern's language and stops where the pattern allows; it terminates on the length of the pattern. |
| `Regex.MatchStar` | projects/p1/p1b/xv6/user/grep.c:98-105 | True if and only if the rest of the pattern matches after some number of characters that fit. |
| `Regex.Match` | projects/p1/p1b/xv6/user/grep.c:71-82 | True if and only if the text has a substring in the pattern's language, at its beginning for a leading ^. |

## Left out

- Device inodes: readi and writei on T_DEV dispatch to drivers; the file operations here are for other types.
- iget, iput, idup and the in-memory inode table with its reference counts and locks; directories and paths.
- Directories written by mkfs's add_dir, whose size rounding can leave a hole, and host directory traversal.
- Fs reads and writes blocks directly; the cache between the file layer and the disk is Bcache, and the two
  are not composed.
- The superblock is a constant that Readsb checks against block 1; the kernel rereads it on every call.
- User writes that overwrite an allocator header; sbrk itself is a parameter.
- The shell's getcmd and runcmd; parse trees with more than 9 arguments, on which the code panics.
- Mlfq.Kernel.Fork: allocproc, copyuvm and the final writes of fork are one step, since on one CPU the claims
  are about dispatches; ProcTree models the steps apart.
- What calls check_starve_and_boost, and races on ninlevel between several CPUs.
- Shm.Kernel.Fork: page tables are maps from page addresses to frames, and frames are numbers that kalloc hands
  out; freevm there bounds itself by another process's size, so frame conservation is not claimed for p3b and is
  proved on the unmodified code in Vm.
- Shm.Kernel.Exec: the ELF reads and the argument copy are parameters that say whether they succeed.
- inituvm and loaduvm of the base virtual memory.
- Vm.Machine.Copyout: a start address whose directory entry is absent, for which the code reads through a null
  pointer, is excluded by a precondition.
- Vm.Machine.Setupkvm: what a failure inside setupkvm has taken is lost in the code and is not described further
  than that no frame in use was written.
- Umalloc.Allocator.Malloc: a size for which sbrk cannot be asked for the memory but succeeds, since the code then
  uses memory it was not given.
- Umalloc.Allocator.Morecore: the same, for unit counts whose byte count is no positive int.
- Fs.FileSystem.Ilock: the busy and valid flags, the sleep on them and the panic on an inode of type 0.
- Mlfq.Kernel.Sleep: the channel is not cleared after the wakeup; it is read only of sleeping processes.
- ProcTree.Table.Sleep: the same.
- Shm.Kernel.Reap: the call of freevm, which is bounded by the parent's size; only the regions are followed.
- The segment and CR3 registers, the TLB, and the scheduler's context switch, which is a step here.
- IDE errors (after which the code still marks the buffer valid), timing, and the second disk's ports.
- Bcache: the sleep and wakeup inside bget and iderw are separate calls of Bget and Ideintr, not blocked threads.
- pipealloc's file structures and the freeing of the pipe's page.
- The server's argument parsing, signals and request handling; threads are numbers.
- ProcTree: files, working directories and memory of a process, pid wrap-around, procdump.
- grep's streaming loop: it can search stale bytes past the end of its buffer, so it does not print exactly the
  matching lines.
- Sorting in p1a, whose order rests on the library's qsort and a subtracting comparator; console, printf and
  string routines; drivers, boot code and networking.
