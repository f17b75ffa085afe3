# A verified model of the `oscdfs` file system and of `proc_snapshot`

`oscdfs` keeps a small Unix-like file system in one 8 MB image: 2048 blocks of 4096 bytes, 128 inodes,
two bitmaps, two redundant pairs of free counters, and inodes that map their blocks through 12 direct
pointers and a single, a double and a triple indirect block. Directories are ordinary block lists of
32-byte entries. On top sit path resolution, a table of 64 open files, and the FUSE callbacks that make
and remove directories.

This project restates that code in Dafny, one module for each source file or concern, and proves that it
does what it is for. The volume is a class whose methods read and rewrite its blocks step by step in the
branches and loops of the C code. Everything that pointers mean is defined over the raw blocks: `At` reads
the block number stored at a location of an inode's pointer tree, `Img` is the block that a logical block
resolves to, `Content` the bytes of a file, `Ents` the entries of a directory, `TreeOf` the whole name space.

The main results:

* **Block map.** `inode_get_block` is a point update of the logical-to-physical map of all inodes, on all
  four levels, also when it runs out of space half way (`InodeGetBlock` with `GetIsPointUpdate`, `GetTwice`).
  Every block is named from one place only, and `inode_free_blocks` releases exactly what the inode owned.
* **Runs.** Every sequence of create, open, close, read, write, delete, mkdir, rmdir, and FUSE reads and writes
  from a fresh format is a history of a simple file system: a tree of names, one byte sequence per file, the
  open-file table, the places in block maps that are in use, and a count of free blocks (`RunFromFormat`, `Run`,
  `Execute`). All invariants hold after every command.
* **Room.** What a write takes from the disk, and where it stops when the disk is full, is exact: the part of the
  pointer tree that is missing, also on files with holes and after writes that were refused (`WriteTakes`); on a
  file without holes it has a closed form in the number of blocks (`DenseWriteTakes`, `NeatWriteStep`, `WaysCount`).
* **Nothing is lost.** Create, open, any writes (also ones that fill the disk), close and delete restore both
  bitmaps, all counters, the tree and all other files (`FileLife`); so do mkdir and rmdir (`DirLife`). Free and
  named blocks add up to 2038 exactly as long as no FUSE write has linked a block below a root pointer that it
  then drops, which can be told from the state before each command (`StepConserves`, `HistoryConserves`).
* **What FUSE writes do wrong.** When one makes a hole (`StepKeepsSolid`), leaks a block (`StepConserves`), loses
  data (`HoleLosesData`, `FuseReadBack`) or shows what the last owner left in a block (`WriteExact`,
  `WritePastEnd`, `InPlaceExact`) is an if-and-only-if over the state before the call each time. All four happen
  after a fresh format (`ByteIsLost`, `DeletedByteShows`).
* **One outcome.** The state before a command decides its answer and the state after it, but for the bytes that a
  write uncovers in the blocks it links (`StepIsDetermined`).
* **Name space.** Every allocated inode but the root hangs in one place of one tree, and a directory never
  needs a second block (`RoomForEntry`). The printed path of a directory leads back to it (`PathOfAndBack`).
* **Paths.** What a path stands for is told by the names in the tree alone: a name by the slot that holds it in the
  directory where the path starts (`ResolveName`), ".." by the parent, a longer path part by part (`ResolveJoin`), a
  relative path as the printed path of its start with it (`FindBothWays`). Printed paths are built name by name
  (`PathOfChild`) with one '/' between two names (`PrintsWell`). Creating, deleting, opening, mkdir and rmdir through
  any path succeed, or give their error, exactly as directory, name and kind say, and change exactly those names
  (`CreateUnder`, `CreateAt`, `DeleteAt`, `OpenAt`, `MkdirUnder`, `RmdirUnder`). Calls after a fresh format are written
  out with their answers (`FormatWitnesses`).
* **Process tree.** `proc_snapshot` prints exactly the nodes whose parents lead to the root, each once, level
  by level, breadth first (`OrderIsBreadthFirst`). What it copies to the caller is determined down to the last byte
  (`Snapshot`), and a reader of its lines recovers every name, pid, level and last-child mark exactly when no printed
  name holds a line feed (`ReadBack`, `ReadSnapshot`, `FourProcesses`).

Where the code and its description differ, the model follows the code:

* names are cut to 27 bytes when they are stored but not when they are looked up (`FoundAfterAdd`);
* `free_inodes` counts the reserved inode 0 as free, so both counters are the clear bits plus one;
* `oscdfs_write_inode` stores the inode only when the file has grown and never clears fresh data blocks, as above;
* the inode record is described as 128 bytes but its declared fields take 136. The model stores and reads records
  of 128 bytes in the four table blocks (`IntendedSlots`); with 136 bytes four records cross the end of their
  block and those from 121 on lie behind the table (`CompiledSlots`);
* `free_block` and `free_inode` would release reserved numbers; then, and only then, bitmaps and counters
  stop agreeing as they should (`FreeBlock`, `FreeInode`);
* a process name may hold a line feed, and then one process can print what two print (`SameText`);
* when `proc_snapshot` runs out of room, the first byte of the piece that does not fit is copied out as well, so
  the copy ends in a NUL exactly when the text fits or that piece would have begun in the last byte of the buffer
  (`EndsInNul`; `NoNulInTheCopy` is a call whose copy holds no NUL).

The files build on each other in this order: `Bytes`, `Layout`, `InodeTable`, `BlockMap`, `Volume`, `Bitmap`,
`Space`, `InodeMap`, `Release`, `Content`, `Invariants`, `FileIo`, `Entries`, `Directory`, `Namespace`, `Trees`,
`Listing`, `Paths`, `PathLaws`, `Filesystem`, `FileOps`, `Directories`, `BuildPath`, `PathOps`, `Mkfs`, `Demand`,
`Accounts`, `Steps`, `Views`, `Laws`, `Leaks`, `Holes`, `Determinism`, `Runs`, `Lifecycle`, `Witnesses`,
`FormatWitnesses`; `ProcSnapshot`, `ProcPrint` and `ProcRead` stand beside them.

## Model

| member | source | states |
|---|---|---|
| Lifecycle.RunFromFormat | oscdfs/src/mkfs.c:52-162 | formatting followed by any command sequence is a history of the simple file system through proper states, which starts with no files, /home and its four directories, 2032 free blocks and no leak; a state of it has leaked nothing exactly when no command so far has lost blocks |
| Runs.Run | oscdfs/src/file.c:54-271 | any command sequence on a volume that satisfies the invariant is a history of the simple file system, answer by answer, and ends with the invariant intact; it ends early only before an rmdir that would remove the directory that relative paths start from |
| Runs.Execute | oscdfs/src/file.c:54-271 | one command answers as the simple file system answers and leaves the volume standing for its next state: which inode number and descriptor are taken, the result of a write, what it takes from the disk and what a deletion gives back are exact |
| Determinism.StepIsDetermined | oscdfs/src/file.c:54-455 | two outcomes of one command from one state have the same answer and differ in nothing but bytes of files; where no file has a hole, and a FUSE write begins within its file, they are the same |
| Runs.AbsFacts | oscdfs/src/file.c:54-271 | in every volume in use the names form a tree, only inodes in use or the reserved one have block maps, holes read as zeros, and free and named blocks add up to at most 2038, to exactly 2038 when nothing has leaked |
| Runs.FuseReadFile | oscdfs/src/fuse.c:75-107 | the answers of opening, and the bytes of the file at the offset |
| Runs.FuseWriteFile | oscdfs/src/fuse.c:75-125 | the answers of opening; what is stored, named and free afterwards when the file grows, when it does not, and when the disk is full |
| Runs.FuseOpen | oscdfs/src/fuse.c:75-97 | ENOENT exactly when the path stands for nothing, EISDIR when for a directory, EACCES when for a file without permission; else the handle is the inode |
| Steps.WriteTakes | oscdfs/src/file.c:205-224 | a write of any file is complete exactly when the disk has room for the missing part of the pointer tree, and takes exactly that; else nothing stays free, and it stops at the first block for which the room does not suffice |
| Steps.DenseWriteTakes | oscdfs/src/file.c:205-224 | on a file without holes the room needed is the closed form for its new number of blocks less what its map has already, also after a refused write |
| Steps.FirstWriteTakes | oscdfs/src/file.c:205-224 | the first write to a new file is complete exactly when the closed form is at most the number of free blocks |
| Laws.NeatWriteStep | oscdfs/src/file.c:205-224 | on a file whose map holds what its size needs and no more, size, offset, length and free count alone decide a write: complete exactly when the closed form for the new size less that for the old one is free, which it then takes; else nothing stays free |
| Holes.StepKeepsNeat | oscdfs/src/file.c:54-455 | a new file is such a file, and stays one under every command that does not write to it and every write to it that stores all its data and begins within it |
| Holes.HistoryKeepsNeat | oscdfs/src/file.c:54-455 | the same over any part of a run |
| Demand.LinkAllTakes | oscdfs/src/inode.c:90-388 | mapping a range of blocks in turn names exactly the missing locations on the ways to them, or as far as the room goes |
| Demand.WaysCount | oscdfs/src/inode.c:90-388 | a file of n blocks without holes needs n data blocks, 1 indirect block above 12, and 1 double indirect block and one indirect block per 1024 above 1036 |
| Demand.DenseNeed | oscdfs/src/inode.c:90-388 | growing a file without holes from m to n blocks takes what n blocks need less what the map has on the way |
| Space.PlaceAllFacts | oscdfs/src/inode.c:90-388 | the block numbers that mapping a range takes, least free number first, amount to that change of named locations and free count |
| Accounts.Balance | oscdfs/src/bitmap.c:57-152 | the clear bits and the named locations add up to at most 2038, and to exactly 2038 when every marked block is owned |
| Accounts.ReleasedCount | oscdfs/src/inode.c:390-485 | releasing an inode raises the free count by the number of locations in its map, and forgets exactly those |
| Laws.WriteIsDetermined | oscdfs/src/file.c:205-227 | the result of a write, the offset and what is named and free after it follow from the state before, and so do the bytes of a file without holes |
| Laws.DenseWriteStep | oscdfs/src/file.c:205-227 | on a file without holes a write replaces exactly the stored bytes and leaves no hole; a short one stops where a new block would have begun at or past the end |
| Holes.DenseFuseWrite | oscdfs/src/file.c:401-452 | on a file without holes a FUSE write at an offset within it replaces exactly the stored bytes and leaves no hole; a refused one has written what it could over the old bytes |
| Laws.FuseReadBack | oscdfs/src/fuse.c:99-125 | the bytes of a FUSE write that succeeded are read back exactly when the file has grown or every nonzero byte of them went below a root pointer that was in use |
| Laws.WriteStepsCompose | oscdfs/src/file.c:205-227 | two writes in a row are one write of the joined data on any file; when the first is short the joined one stops at the same place with the same blocks taken, and the second stores nothing |
| Laws.ReadStepsCompose | oscdfs/src/file.c:160-175 | two reads in a row return the bytes and the offset of one read |
| Leaks.StepConserves | oscdfs/src/inode.c:90-485 | no command raises the sum of free and named blocks, and it is kept exactly by commands other than a FUSE write and by FUSE writes that lose nothing, a condition on the state before |
| Leaks.HistoryConserves | oscdfs/src/inode.c:90-485 | a run has leaked nothing exactly when it started without a leak and each command so far lost nothing |
| Leaks.FuseWriteLoses | oscdfs/src/file.c:401-452 | a FUSE write keeps the sum of free and named blocks exactly when it grows the file with room for all of it, or each of its blocks that hangs below an empty root pointer comes when nothing is left to link |
| Leaks.RootLinked | oscdfs/src/inode.c:90-388 | mapping a range links an empty root pointer exactly when a block is left at the first block of the range below it |
| Holes.StepKeepsSolid | oscdfs/src/file.c:54-455 | of a state without holes a command makes one with a hole exactly when it is a FUSE write that does not leave none |
| Holes.FuseWriteSolid | oscdfs/src/file.c:401-452 | a FUSE write to a file without holes makes one exactly when it has room for all its data, ends past the end of the file, and some block between the old end and the first one it writes to is not mapped |
| Lifecycle.FileLife | oscdfs/src/file.c:54-271 | create, open, any writes, close, delete: both bitmaps, super block, group descriptor, tree and files are what they were, also under a name that does not fit, where nothing is opened |
| Lifecycle.DirLife | oscdfs/src/fuse.c:184-312 | mkdir then rmdir of one path: both bitmaps, all counters, tree and files are what they were exactly when the last name has at most 27 bytes; a longer one is made and not found again |
| Lifecycle.OpenFilesAreLinked | oscdfs/src/file.c:93-136 | a used descriptor names an allocated regular file, within its size, that is still found under its own name |
| Lifecycle.NeverOpened | oscdfs/src/bitmap.c:156-200 | no descriptor stands in an inode number that is free to be allocated |
| Lifecycle.CreatedIsFound | oscdfs/src/file.c:54-126 | the path just created is what delete resolves to, and open resolves to it exactly when the last name has at most 27 bytes, else to nothing; removing it restores the tree |
| Lifecycle.MadeIsFound | oscdfs/src/fuse.c:253-312 | a directory just made is what its path resolves to exactly when the last name has at most 27 bytes; it is empty, and removing it restores the tree |
| Lifecycle.WriteAll | oscdfs/src/file.c:185-230 | any number of writes through one descriptor touch no other file, descriptor or name, and only add blocks to that inode |
| Lifecycle.ReadersAgree | oscdfs/src/file.c:344-375 | the dividing reader and the block-stepping reader return the same bytes of any file, holes included |
| Lifecycle.WritersAgree | oscdfs/src/file.c:401-452 | on two copies of one volume the FUSE writer stores as many bytes as the descriptor writer reports, so one succeeds exactly when the other reports all; both take the same blocks, and leave the same bytes on a file without holes |
| Witnesses.ByteIsLost | oscdfs/src/file.c:448-452 | after a fresh format: create, a byte at 8192, a byte at 0, both reported as written; reading at 0 returns 0. The first write has made a hole without a leak, the second has leaked a block |
| Witnesses.StaleBytes | oscdfs/src/file.c:425-434 | create, write and delete one file, create another and write behind an offset in its first block: what stands before the offset is what the deleted file had there |
| Witnesses.DeletedByteShows | oscdfs/src/file.c:425-434 | the same after a fresh format, for one byte |
| Lifecycle.CountersAre | oscdfs/src/super.c:89-111 | in every state of the invariant the two block counters equal the clear block bits and the two inode counters the clear inode bits plus one |
| Layout.LocOfIsValid | oscdfs/src/inode.c:107-287 | every logical block below 12+N+N²+N³ splits into a level and indices below N that recombine to it |
| Layout.LbOfIsLogical | oscdfs/src/inode.c:107-287 | every such index path is the split of exactly one logical block below the bound |
| Layout.LocOfInjective | oscdfs/src/inode.c:93-287 | different inodes or logical blocks never share a location |
| InodeMap.InodeGetBlock | oscdfs/src/inode.c:90-388 | the whole contract `Got`: what was mapped is returned and nothing changes; a lookup changes nothing; an allocation links one fresh data block, which keeps the bytes it held, or fails only with the disk full; ownership only grows, for this inode; which numbers are taken for which locations is exact (`Placed`) |
| BlockMap.GetIsPointUpdate | oscdfs/src/inode.c:90-388 | after it the requested block resolves to the result, and every other logical block of every inode as before; on -1 all resolve as before |
| BlockMap.GetTwice | oscdfs/src/inode.c:94-98 | asking again returns the same block and changes nothing |
| BlockMap.ImagesAfter | oscdfs/src/inode.c:90-388 | no block that holds data is overwritten while pointer blocks are linked |
| InodeMap.FollowSlot | oscdfs/src/inode.c:109-131 | following a root pointer links at most one zeroed block there and keeps every other location |
| InodeMap.FollowWord | oscdfs/src/inode.c:131-167 | the same for a word of a pointer block |
| BlockMap.LinkSlot | oscdfs/src/inode.c:99-103 | storing a free block number in an empty root pointer changes exactly that location in all pointer trees |
| BlockMap.LinkWord | oscdfs/src/inode.c:150-163 | storing a free block number in an empty word of a pointer block changes exactly that location, also when the new block is itself a pointer block |
| BlockMap.FollowedThenGot | oscdfs/src/inode.c:170-281 | one level followed and the rest looked up below is the lookup from the start |
| BlockMap.BlocksAreDisjoint | oscdfs/src/inode.c:90-485 | two places never name one block; named blocks lie in 10..2047 and are marked |
| BlockMap.MappedBound | oscdfs/src/inode.c:90-388 | at most 2038 logical blocks of an inode in a row can be mapped |
| ReleaseBlocks.InodeFreeBlocks | oscdfs/src/inode.c:390-485 | exactly the blocks the inode owned were marked and are cleared, each by a release that succeeds; all other locations read as before |
| ReleaseBlocks.FreeSingle | oscdfs/src/inode.c:401-415 | releasing a single-indirect block clears exactly the blocks below it and itself |
| ReleaseBlocks.FreeDouble | oscdfs/src/inode.c:418-443 | the same for two levels |
| ReleaseBlocks.FreeTriple | oscdfs/src/inode.c:446-481 | the same for three levels |
| BlockMap.Release | oscdfs/src/inode.c:390-485 | emptying one inode and unmarking what it owned keeps ownership of all others, leak-free if it was |
| BlockMap.Forget | oscdfs/src/file.c:415-419 | dropping new root pointers without saving them breaks nobody's map; the blocks merely leak |
| InodeMap.ReadInode | oscdfs/src/inode.c:11-36 | the inode stored in the bytes of its record, found by offset in the table blocks, or failure outside the table |
| InodeMap.WriteInode | oscdfs/src/inode.c:38-69 | of the words of the table exactly those of one record have become those of the inode, words that an inode does not hold and all other records are kept; nothing changes for a number outside the table |
| InodeTable.RecordIsPoint | oscdfs/src/inode.c:38-69 | rewriting one record of a table block is a point update of the 128 inodes |
| InodeTable.IntendedSlots | oscdfs/include/oscdfs.h:108-122 | with records of 128 bytes all 128 of them lie in one block of the table each, 32 to a block |
| InodeTable.CompiledSlots | oscdfs/src/inode.c:18-20 | with the 136 bytes that the declared fields take, exactly the records below 121 other than 30, 60, 90 and 120 do |
| InodeTable.SlotsAreDisjoint | oscdfs/src/inode.c:18-20 | for any record size, records that lie in one block each do not overlap |
| InodeMap.InodeInit | oscdfs/src/inode.c:71-88 | the slot becomes an empty inode of the given kind |
| Bitmap.AllocBlock | oscdfs/src/bitmap.c:57-101 | the least clear bit is taken; -1 exactly when none is clear; counters keep agreeing |
| Bitmap.FreeBlock | oscdfs/src/bitmap.c:105-152 | 0 exactly for a marked number in range, whose bit alone is cleared; the agreement survives exactly when the number is not a metadata block |
| Bitmap.AllocInode | oscdfs/src/bitmap.c:156-200 | the least clear bit is taken, never 0; -1 exactly when none is clear |
| Bitmap.FreeInode | oscdfs/src/bitmap.c:204-250 | the same as for blocks; releasing inode 0 breaks the agreement and may even be reported as a failure after the bit was cleared |
| Bitmap.SuperUpdateCounts | oscdfs/src/super.c:89-111 | refuses exactly a wrong magic number or a count outside its range |
| Bitmap.GroupDescUpdateCounts | oscdfs/src/super.c:160-181 | refuses exactly a count outside its range |
| Volumes.SetBit | oscdfs/src/bitmap.c:72-82 | setting or clearing a mask in the byte buffer is a point update of the bits it stands for |
| Volumes.ClearCountUpdate | oscdfs/src/bitmap.c:83-91 | a changed bit moves the clear count by exactly one |
| Volumes.ClearCountZero | oscdfs/src/bitmap.c:57-101 | the clear count is 0 exactly when every bit is set |
| FileIo.OscdfsRead | oscdfs/src/file.c:138-183 | returns content[offset .. min(offset+n, size)] and moves only this descriptor; refuses exactly a bad, write-only or forbidden descriptor |
| FileIo.OscdfsWrite | oscdfs/src/file.c:185-230 | on any file: which positions now hold the data, that all others hold what the disk held there, which blocks were taken, and that a short write left none free; keeps the invariant, without a leak |
| FileIo.DenseWritten | oscdfs/src/file.c:205-227 | on a file without holes that is the replacement of exactly the bytes at [offset, offset+returned) |
| FileIo.OscdfsReadInode | oscdfs/src/file.c:330-387 | returns content[offset .. min(offset+n, size)] of any file, holes as zeros |
| FileIo.OscdfsWriteInode | oscdfs/src/file.c:393-455 | for any offset and any holes `InodeWritten`: every byte, every named location and every bitmap bit, when the file grows, when it does not, and when the disk fills up |
| FileIo.FuseWriteDense | oscdfs/src/file.c:401-452 | on a dense file, at an offset within it, the content is what a write should leave; with the disk full the stored part stays over the old bytes |
| Contents.WritePastEnd | oscdfs/src/file.c:425-452 | a write past the end leaves zeros before the offset exactly when the bytes there are zeros in the blocks that are mapped, and in the free block that is going to be linked for the offset, all in the state before the call |
| FileIo.HoleLosesData | oscdfs/src/file.c:448-452 | when the file does not grow, a written byte reads back exactly when it is 0 or the root pointer above its block was in use, on all four levels |
| FileIo.InPlaceExact | oscdfs/src/file.c:425-452 | a write within the file does what it should exactly when no nonzero byte is lost that way and no free block that is going to be linked for good holds a nonzero byte beside the data, all in the state before the call |
| Contents.WriteExact | oscdfs/src/file.c:425-452 | a write whose inode is stored does what it should exactly when each position that is no byte of the file, and is not written to, is going to lie on a zero byte of the disk; the blocks to be linked follow from bitmap and map before the call |
| FileIo.GrownExact | oscdfs/src/file.c:425-452 | the same for a FUSE write that makes the file longer |
| FileIo.WrittenExact | oscdfs/src/file.c:205-227 | the same for a write through a descriptor, on any file |
| FileIo.ProgressSmall | oscdfs/src/file.c:205-222 | no position of a write to a dense file reaches 2038*4096 bytes or the triple-indirect level, so nothing wraps |
| Contents.DenseBound | oscdfs/src/file.c:154-175 | a dense file has at most 2038*4096 bytes |
| Contents.ContentWritten | oscdfs/src/file.c:205-224 | the block-by-block stores amount to one replacement in the byte sequence |
| Contents.WriteSplits | oscdfs/src/file.c:205-226 | writing a then b is writing a+b |
| Contents.ReadSplits | oscdfs/src/file.c:160-175 | reading m then n bytes is reading m+n |
| Contents.ReadAfterWrite | oscdfs/src/file.c:138-230 | what was written is read back, everything else reads as before |
| Entries.EntryAfterSet | oscdfs/src/dir.c:88-96 | storing an entry in its 32-byte slot is a point update of the block read as 128 entries |
| Directory.ScanDir | oscdfs/src/dir.c:151-170 | the scan over blocks and slots ends, and finds the first entry asked for in the whole directory or that there is none |
| Directory.DirFindEntry | oscdfs/src/dir.c:133-174 | the inode of the first entry with the name, else -1 |
| Directory.DirAddEntry | oscdfs/src/dir.c:53-126 | the entry lands in the first free slot, or in a new block when there is none, or nothing visible changes because the disk is full |
| Directory.DirRemoveEntry | oscdfs/src/dir.c:180-242 | frees exactly the first entry with the name; changes nothing when there is none |
| Directory.BeyondEmpty | oscdfs/src/dir.c:102-114 | a directory with nothing mapped behind its first hole grows at its very end |
| Namespace.AddedToDirectory | oscdfs/src/dir.c:53-126 | what DirAddEntry does to a directory of any number of blocks without a gap is a map update |
| Namespace.AddRefines | oscdfs/src/dir.c:53-126 | adding an absent name is a map update |
| Namespace.RemoveRefines | oscdfs/src/dir.c:180-242 | removing a name takes exactly it out of the map |
| Namespace.RemoveUndoesAdd | oscdfs/src/dir.c:53-242 | remove after add restores the entries, but for a block of free slots if one was appended |
| Namespace.FoundAfterAdd | oscdfs/src/dir.c:64-163 | an added name is found again exactly when it has at most 27 bytes |
| Trees.RoomForEntry | oscdfs/src/dir.c:102-114 | while an inode number is free every directory has a free slot in its one block |
| Trees.AddKeepsTree | oscdfs/src/file.c:79-90 | naming a fresh inode keeps the name space a tree |
| Trees.RemoveKeepsTree | oscdfs/src/file.c:267-269 | unlinking a file or an empty directory keeps it a tree |
| Trees.RemoveUndoesAddNode | oscdfs/src/file.c:79-269 | unlinking what was just linked restores the tree |
| Trees.AddNodeLookup | oscdfs/src/dir.c:53-174 | after an addition the new name finds the new inode, every other name what it found |
| Trees.RemoveNodeLookup | oscdfs/src/dir.c:133-242 | after a removal the name is gone and every other name finds what it found |
| FileOps.FindInodeByPath | oscdfs/src/dir.c:250-296 | the walk over '/'-separated names from the root or the start, -1 exactly when a component is missing; nothing and "." find the start, ".." of a directory its parent, and any other bare name the inode that a slot of the start holds under it, -1 exactly when none does |
| PathLaws.ResolveName | oscdfs/src/dir.c:250-296 | a name other than "." stands for an inode, from any start, exactly when the start lists that inode under the name |
| PathLaws.ResolveNothing | oscdfs/src/dir.c:250-296 | nothing and "." stand for the start |
| PathLaws.ResolveParent | oscdfs/src/dir.c:279-284 | ".." stands for the one directory that lists the start under a name, of the root for the root |
| PathLaws.ResolveJoin | oscdfs/src/dir.c:250-296 | the second part of a path is resolved from where the first part has led |
| PathLaws.ResolveSlash | oscdfs/src/dir.c:263-268 | a path that begins with '/' is resolved from the root, whatever the start |
| PathLaws.ResolveSlashes | oscdfs/src/dir.c:270-293 | two slashes in a row count as one |
| PathLaws.ResolveCut | oscdfs/src/dir.c:255-257 | of a path of 1024 bytes or more the first 1023 count |
| BuildPath.FindBothWays | oscdfs/src/dir.c:250-410 | from a directory a relative path finds what the printed path of the directory, '/' and it find from anywhere |
| PathOps.FindUnder | oscdfs/src/dir.c:250-296 | `a/c` finds exactly what the directory that `a` stands for lists under `c` |
| PathOps.FindAt | oscdfs/src/dir.c:250-410 | the printed path of a directory, '/' and a name find exactly what the directory lists under the name, from any start |
| Listing.EdgeIsLookup | oscdfs/src/dir.c:133-174 | a name is found as an inode exactly when some used slot of the directory holds both |
| Listing.ListedIsMapped | oscdfs/src/dir.c:133-174 | a name stands in a slot exactly when the directory as a map has it |
| Listing.OneEdge | oscdfs/src/dir.c:133-174 | a directory lists one inode under a name |
| Listing.DotEdges | oscdfs/src/dir.c:8-46 | every directory lists itself as "." and its parent as "..", and nothing else under these names |
| Listing.EdgesAfterAdd | oscdfs/src/file.c:79-90 | naming a new inode adds that name, and for a directory its two dots, and no other |
| Listing.EdgesAfterRemove | oscdfs/src/file.c:267-269 | taking an inode away takes its name, and for a directory its two dots, and no other |
| Listing.EmptyMeans | oscdfs/src/fuse.c:265-286 | a directory is empty exactly when it lists nothing but its dots |
| Paths.WalkStays | oscdfs/src/dir.c:276-293 | a walk that starts in the tree ends in the tree |
| Paths.ResolveLast | oscdfs/src/dir.c:250-296 | resolving a path is resolving its directory part and looking up the last name there |
| Paths.ResolveSplit | oscdfs/src/file.c:4-27 | the same for the split made by `split_path`, bare names included |
| Paths.WalkAfterAdd | oscdfs/src/dir.c:250-296 | every path that resolved still resolves to the same inode after a name has been added |
| Paths.PathRoundTrip | oscdfs/src/dir.c:302-410 | the printed path of any directory resolves to it, wherever the walk starts |
| BuildPath.BuildPathFromInode | oscdfs/src/dir.c:302-410 | prints '/' and the names from the root down to the directory, clipped to the buffer; uncut, the text begins with '/', has no two in a row, ends in one only for the root, where it is that alone, and is otherwise as long as the names with a '/' each |
| PathLaws.PathOfChild | oscdfs/src/dir.c:302-410 | a directory prints as the one that lists it, '/' and its name there; a child of the root as '/' and its name |
| PathLaws.PrintsWell | oscdfs/src/dir.c:400-409 | joined names begin with '/', hold no two in a row, end in one only when there are no names, and take the sum of their lengths and a byte each |
| BuildPath.ParentAndChild | oscdfs/src/dir.c:302-410 | the buffers of a directory and of the one that lists it differ by '/' and the name |
| BuildPath.DepthBound | oscdfs/src/dir.c:310-345 | no directory is more than 126 levels deep, so the array of 128 names never overflows |
| BuildPath.PathOfAndBack | oscdfs/src/dir.c:250-410 | building the path of a directory and looking it up returns the directory |
| FileOps.OscdfsCreate | oscdfs/src/file.c:54-91 | -1 exactly when the path, the permission or the supply of inodes forbids; else the tree gains the one name, with the least inode number not in use, and an empty file; `CreateUnder`, `CreateHere` and `CreateAt` tell it by directory and name |
| PathOps.CreateUnder | oscdfs/src/file.c:54-91 | creating `a/c`, for all texts: succeeds exactly when `a` fits and stands for a directory that does not list the cut `c`, it is permitted and an inode is free; then the names grow by that one, for the least free inode, an empty file |
| PathOps.CreateHere | oscdfs/src/file.c:54-91 | the same for a bare name and the current directory |
| PathOps.CreateAt | oscdfs/src/file.c:54-91 | the same for any directory by its printed path, from any current directory |
| PathOps.SplitUnder | oscdfs/src/file.c:4-27 | the split is at the last '/', the root when that is the first byte; none of an empty name or of a directory part of 1024 bytes |
| FileOps.AllocFd | oscdfs/src/file.c:29-42 | the least unused descriptor; -1 exactly when all are used |
| FileOps.FreeFd | oscdfs/src/file.c:44-52 | clears a used descriptor in range, else nothing |
| FileOps.OscdfsOpen | oscdfs/src/file.c:93-126 | -1 exactly when the path names no regular file, permission is missing or all descriptors are used |
| PathOps.OpenPath | oscdfs/src/file.c:93-126 | opens exactly what the path stands for when that is a regular file, permitted and a descriptor is unused, on the least such at offset 0 |
| PathOps.OpenUnder | oscdfs/src/file.c:93-126 | the same for `a/c` and what `a` lists under `c` |
| PathOps.OpenHere | oscdfs/src/file.c:93-126 | the same for a bare name and the current directory |
| PathOps.OpenAt | oscdfs/src/file.c:93-126 | any file is opened by the printed path of its directory, '/' and its name, from any current directory |
| FileOps.OscdfsClose | oscdfs/src/file.c:128-136 | frees exactly a used descriptor |
| FileOps.OscdfsDelete | oscdfs/src/file.c:232-271 | refuses exactly a missing name, a directory, a missing permission or an open file; else name, inode and blocks go, all of them; `DeleteUnder`, `DeleteHere` and `DeleteAt` tell it by directory and name |
| PathOps.DeleteUnder | oscdfs/src/file.c:232-271 | deleting `a/c`, for all texts: succeeds exactly when `a` fits and stands for a directory that lists a regular file under the cut `c`, it is permitted and no descriptor has the file open; then that name, the inode and the content go |
| PathOps.DeleteHere | oscdfs/src/file.c:232-271 | the same for a bare name and the current directory |
| PathOps.DeleteAt | oscdfs/src/file.c:232-271 | any file is deleted by the printed path of its directory, '/' and its name, exactly when permitted and not open |
| Directories.MakeDir | oscdfs/src/mkfs.c:5-50 | fails, undone, exactly when inodes or blocks have run out; else the least inode number not in use and one block become an empty directory in its place |
| Directories.FuseMkdir | oscdfs/src/fuse.c:184-251 | ENOENT exactly when the part before the last '/' stands for nothing, ENOTDIR when for a file, EACCES when for a directory without permission, EEXIST when with it for one that lists the cut name, ENOSPC when it does not and inodes or blocks have run out, all undone; else as MakeDir |
| PathOps.MkdirUnder | oscdfs/src/fuse.c:184-251 | mkdir of `a/c`: the six answers by what `a` stands for and whether it lists the cut `c`; the names grow by the new directory's and its dots |
| Directories.SplitFuseIs | oscdfs/src/fuse.c:188-201 | the split is at the last '/', the root when that is the first byte, and the name is cut to its first 27 bytes |
| Directories.FuseRmdir | oscdfs/src/fuse.c:253-312 | ENOENT exactly when the path stands for nothing, ENOTDIR when for a file, ENOTEMPTY when for a directory that lists more than its dots, EACCES when for another without permission, all unchanged; else name, inode and blocks go |
| PathOps.RmdirUnder | oscdfs/src/fuse.c:253-312 | rmdir of `a/c`: the five answers by what `a` lists under `c`; the names lose the directory's and its dots |
| Directories.EmptyScan | oscdfs/src/fuse.c:265-286 | the scan for entries other than the dots finds none exactly when the directory is empty |
| Directories.RemovingADotBreaksTheTree | oscdfs/src/fuse.c:288-310 | a remark on the tree, not on a call: taking "." out of its own directory never leaves a tree, which is why FuseRmdir asks for a path that does not end in a dot |
| Mkfs.InitMetadata | oscdfs/src/mkfs.c:80-107 | the four metadata writes agree with each other and own nothing |
| Mkfs.MakeRoot | oscdfs/src/dir.c:8-46 | inode 1 becomes the root directory, its own parent |
| Mkfs.MkfsDisk | oscdfs/src/mkfs.c:52-162 | succeeds, with every invariant, no leak and no holes; the names are exactly "home" in the root, "root", "oscd", "pyc" and "guest" in it, and the dots of those six directories, which are inodes 1 to 6; 2032 free blocks and an inode count of 122 |
| FormatWitnesses.MkdirAfterFormat | oscdfs/src/fuse.c:184-251 | after a format mkdir of "/home" is EEXIST, of "/x/y" ENOENT, of "/home/x" without permission EACCES, and with it makes inode 7 |
| FormatWitnesses.RmdirAfterFormat | oscdfs/src/fuse.c:253-312 | after a format rmdir of "/home" is ENOTEMPTY, of "/x" ENOENT, of "/home/pyc" without permission EACCES, and with it removes inode 5 |
| FormatWitnesses.FileAfterFormat | oscdfs/src/fuse.c:184-312 | "/f", created after a format, is inode 7; mkdir of "/f/y" and rmdir of "/f" are ENOTDIR |
| FormatWitnesses.OpenAfterFormat | oscdfs/src/fuse.c:75-97 | opening "/home" is EISDIR, "/x" ENOENT, "/f" without permission EACCES, with it 7 |
| FormatWitnesses.NotesAfterFormat | oscdfs/test.txt:43-44 | "/home/oscd/notes.txt", created from /home/root, is inode 7 and stands in /home/oscd |
| FormatWitnesses.NotesInUse | oscdfs/test.txt:43-60 | that path then finds and opens it on descriptor 0, and does not delete it while it is open |
| FormatWitnesses.HereAfterFormat | oscdfs/src/file.c:54-91 | the bare name "f", created from /home/root, is inode 7 and stands there |
| FormatWitnesses.FoundHere | oscdfs/src/dir.c:250-296 | it is found from there and not from the root; "." and ".." from there are 3 and 2 |
| FormatWitnesses.PwdAfterFormat | oscdfs/test.txt:19-26 | inodes 1, 2 and 3 print as "/", "/home" and "/home/root", the last in 8 bytes as "/home/r" |
| ProcSnapshot.InitIsARoot | oscdk/patches/0001-add-proc-syscalls.patch:170-174 | a list that holds pid 1 always has a root without a parent, whatever the other parent data |
| ProcSnapshot.BfsStep | oscdk/patches/0001-add-proc-syscalls.patch:205-249 | printing a node and queueing its children never queues a node twice and keeps the levels in order |
| ProcSnapshot.OrderIsReachable | oscdk/patches/0001-add-proc-syscalls.patch:205-259 | the print order holds exactly the nodes whose parents lead to the root, each once, by non-decreasing depth |
| ProcSnapshot.OrderIsBreadthFirst | oscdk/patches/0001-add-proc-syscalls.patch:205-251 | the print order begins with the root, takes nodes in the order of their parents, and children of one parent in the order of the list |
| ProcSnapshot.ParentIs | oscdk/patches/0001-add-proc-syscalls.patch:170-182 | the parent is the first node of the list with the pid that the process names; pid 1 has none |
| ProcPrint.Forest.LinkParents | oscdk/patches/0001-add-proc-syscalls.patch:170-191 | every node hangs below the first node with its parent's pid; the root is the last pid 1, else the first node |
| ProcPrint.Forest.MarkLast | oscdk/patches/0001-add-proc-syscalls.patch:193-203 | exactly the nodes without a later sibling are marked |
| ProcPrint.ChainIsAncestry | oscdk/patches/0001-add-proc-syscalls.patch:224-230 | the walk up visits the proper ancestors in order, min(64, depth) of them, and never leaves the way to the root |
| ProcPrint.Forest.Ancestors | oscdk/patches/0001-add-proc-syscalls.patch:224-230 | the loop collects that chain and never meets a node without a parent |
| ProcPrint.PrintPiece | oscdk/patches/0001-add-proc-syscalls.patch:231-241 | a piece is appended whole with its NUL, or the buffer keeps its prefix and the first byte of the piece |
| ProcPrint.PrintTree | oscdk/patches/0001-add-proc-syscalls.patch:205-259 | the whole tree is printed exactly when it fits with its NUL; else exactly the pieces before the first one that does not fit, and the first byte of that one |
| ProcPrint.Snapshot | oscdk/patches/0001-add-proc-syscalls.patch:125-279 | the return value and every byte copied to the caller, for every list and size; `ReadBack` tells what the bytes mean |
| ProcRead.ReadBack | oscdk/patches/0001-add-proc-syscalls.patch:205-251 | a reader of lines, written for the bytes alone, gets from the printed text for each node of the print order its name, its pid, its level capped at 64, its last-child mark and those of its ancestors, exactly when no printed name holds a line feed |
| ProcRead.NodeReads | oscdk/patches/0001-add-proc-syscalls.patch:217-247 | one printed line reads as its node: last exactly when no later process of the list has the same parent |
| ProcRead.ReadSnapshot | oscdk/patches/0001-add-proc-syscalls.patch:253-279 | what the caller can read in the copy is the nodes of the print order in turn: all of them when the text and a NUL fit, which the return value says, else as many as have a whole line in the buffer |
| ProcRead.FourProcesses | oscdk/patches/0001-add-proc-syscalls.patch:125-279 | the call on init(1), a(12) and b(3) below it and c(5) below a, byte by byte |
| ProcRead.SameText | oscdk/patches/0001-add-proc-syscalls.patch:217-247 | with a line feed in a name one process prints what two print |
| ProcRead.NumberReads | oscdk/patches/0001-add-proc-syscalls.patch:218-219 | the printed pid reads as the pid, its sign included |
| ProcPrint.EndsInNul | oscdk/patches/0001-add-proc-syscalls.patch:231-279 | the copy ends in a NUL exactly when the text fits or the piece that does not fit would have begun in the last byte |
| ProcPrint.CopyIsPrefix | oscdk/patches/0001-add-proc-syscalls.patch:231-279 | the copy is a prefix of the whole text, but for a NUL at its end |
| ProcPrint.NoNulInTheCopy | oscdk/patches/0001-add-proc-syscalls.patch:231-279 | a call whose copy holds no NUL |

## Left out

- Raw disk access, `flock`, the mutex, short reads and writes, and failing memory allocation: the disk is a sequence of blocks whose reads and writes succeed; a full disk and full tables are the failures kept.
- Timestamps, owners and permission bits: they influence no other field; storing an inode leaves their words of the record as they were. Permission checks are one yes-or-no input of each operation.
- The user and group tables, login, the remaining FUSE callbacks and command dispatch: they add no state to the block or name level; the user table of `mkfs_disk` is not part of this model.
- The inode record is stored with 128 bytes, the size that the header and the description intend; what happens with 136 bytes beyond `CompiledSlots` is not modelled.
- Inodes passed by pointer are values given and returned, and the disk, the inode table and the bitmaps are sequence fields whose elements are replaced: aliasing of C buffers is not modelled.
- Casts between `int` and `uint32_t` of block and inode numbers: both stay below 2048.
- The roll-back after a failing `dir_add_entry` in create and mkdir: it cannot be reached (`RoomForEntry`).
- `oscdfs_chmod`, `oscdfs_chown`, `proc_collect`, `proc_stat`, `oscddrv`, `oscdsh` and `oscdmon`: they would add only easy members.
- RCU, `kmalloc`, `copy_to_user` and the walk over the kernel's process list: the collected list is the input.
- InodeGetBlock: requires the logical block to lie below the last one that three levels reach; the code does not check this, and no caller passes more.
- OscdfsRead: requires a size of at most 2^32 - 4096, which holds of every file of a run.
- OscdfsWriteInode: requires offset + length to stay below 2^32, where the 32-bit size field would be cut.
- FuseMkdir: requires a parent path of fewer than 1024 bytes; a longer one does not fit the buffer of the C code.
- MkdirUnder: requires a parent path of fewer than 1024 bytes, as FuseMkdir.
- RmdirUnder: requires a path as the kernel resolves it, as FuseRmdir.
- FuseRmdir: requires a path as the kernel resolves it (absolute, no trailing slash or dot) and of fewer than 1024 bytes; a longer one is cut for the parent and for the walk but not for the name, and may then name two different directories.
- Execute: mkdir and rmdir get such resolved paths, a FUSE write opens its file, and the directory that relative paths start from exists and is not the one that an rmdir removes; `Run` ends before such a command. A FUSE handle kept after its file was deleted is not modelled.
- FuseWriteFile: requires a write that ends 16 MB below the 32-bit limit, so that no position in any file can wrap around afterwards.
- BuildPathFromInode: requires a directory of the tree and a buffer of at least two bytes; callers pass the current directory and MAX_CMD_LEN. Of another inode the code would read the blocks as entries.
- FindUnder: takes a whole path of fewer than 1024 bytes; a longer one is cut (`ResolveCut`).
- OpenUnder: takes a whole path of fewer than 1024 bytes, as FindUnder.
- CreateAt: takes a directory whose printed path fits the buffer of 1024 bytes, as do DeleteAt, OpenAt and FindAt; a longer text is cut.
- ReadSnapshot: takes names without a line feed; `ReadBack` is an if-and-only-if.
- FileLife: takes a path that fits MAX_CMD_LEN; a longer one is cut by open but not by create, and can then mean another file.
- Snapshot: requires that the root is not its own ancestor, which holds whenever pid 1 is in the list; of a list without pid 1 and with such a cycle, where a node would be linked into the queue while it still is in it, nothing is said.
