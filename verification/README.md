# A verified model of the a3 storage stack, its list library and its pager

This project models, in Dafny, how the a3 shell keeps files on a block device, how its list library sorts in place, and
how it pages scripts through a small frame store. It proves what those parts promise to their callers.

The storage stack is modelled layer by layer, each layer proved to stand for something simple:

- `BufferCaches`: the write-back clock cache stands for a plain array of sectors, its ghost field `view`.
- `BitWords`, `Bitmaps`: 64-bit words stand for a sequence of bits; the byte image of the words stands for them too.
- `DiskFormat`, `BlockTree`, `Growth`, `FileTree`, `FileBytes`: an inode's 123 direct pointers, its indirect block and its
  double indirect block form a forest; the leaves in order are the bytes of the file.
- `Accounting`, `Reserving`, `Releasing`, `Gaps`: what growth and removal cost, to the sector, and where they are refused.
- `Volumes`, `VolumeSteps`: the invariant of the whole device. Every marked sector has exactly one owner, which is an inode
  or one slot of one file (or it was allocated a moment ago and is still loose), and bytes past the end of a file are zero.
- `Census`: conservation. The free sectors and the sizes of all files, index blocks and inodes included, add up to the device.
- `FileSystems`: the class whose methods are the functions of `inode.c` and `free-map.c`, over the cache and the bitmap.
- `FlatModel`: whole runs of creates, reads, writes, removals and remounts, refused and denied ones too, against a map from
  inodes to byte sequences and a number of free sectors.
- `DirectoryFormat`, `Directories`: a directory file stands for a finite map from names to inode sectors.
- `Filesys`: creating a file by name, with its directory entry and what is undone when a step fails, and removing one.
- `NamedModel`: whole runs of creates, reads, writes, removals and remounts by name, against a map from names to byte
  sequences, a number of directory entries and a number of free sectors; replies and states are determined by it.
- `Witnesses`: runs from a blank device to each state in which a promise does not hold.

The list library is in `MergeSort` (what natural merge sort means, on sequences) and `IntrusiveLists` (the pointers);
`LinkedLists` puts the counted lists of `linked_list.c` on the same nodes. The pager is in `Recency` (what least recently
used means), `Frames` (why first fit does not fragment three-cell frames), `Scripts` (how a script is read and its lines are
counted), `Kernels` (the methods) and `PagerRuns` (a run to a state that the pager's invariant does not allow).

## How the model is shaped

Code that works in place is imperative here: classes with the source's fields, loops with invariants. Some single C
functions are split into several methods where their parts need contracts of their own: `inode_reserve` and
`inode_reserve_indirect` into the `Reserve...` methods, `inode_write_at` into `Extend` and `Overwrite`, `filesys_create`
into `CreateFile` and `AddEntry`, the clock loop of `buffer_cache_evict` into `Sweep` and `Advance`, `list_splice` into
`Cut` and `Paste`, the pass of `list_sort` into `MergePass`, the loop of `load_PAGE` into `ReadLines`, the loop of
`PCB_init` into `LoadNext`, and `run_proc` into `Load`, `EvictLast`, `Fault` and `MoveToFront`.

Preconditions stand for the source's assertions and for what it silently relies on: offsets within the largest file
(8517120 bytes, so that no 32-bit sum overflows), a device below 2^32 sectors, and one opener for each file. `less` is a
pure function of two nodes and, for sorting, a strict weak order.

Some promises turn out to be false of the code as it stands. Each has a concrete input and an exact condition:

- A write can damage the volume in two ways. Writing no bytes at offset 0 cuts a file that is not empty to length 0 without
  freeing its blocks (`Truncates`). A growth for which there is not enough space fails, but it marks every free sector first
  and gives none back; and when the sector it is refused is due to hold an index block, it fills sector 0, the inode of the
  free-map file, with zeros (`Wipes`, `Gaps.GapsAt`: the file could reach some number of data sectors from which the next
  one costs at least two sectors more than there are). Exactly: after a write that is not denied the volume is in order if
  and only if the write is not the truncating one and either there are enough free sectors, or there is none and the growth
  is not refused an index block (`WriteAt`). Even so a refused growth loses no byte of any file. The inputs:
  `Witnesses.TruncateRun`, `Witnesses.LeakRun`, `Witnesses.WipeRun`.
- `filesys_create` gives back only the inode's sector when a later step fails. The volume is in order afterwards if and only
  if the call succeeded, no sector was free, or nothing but the inode's sector had been taken and sector 0 survives;
  `Filesys.Create` says when that is, and `FileSystem.CreateFile` and `CreateIn` say it of the part up to the directory
  entry. The input, a name that is taken: `Witnesses.NameTakenRun`.
- The comment on `bitmap_scan_and_flip` says that a count of zero gives 0. The code gives `start`, so it does if and only if
  `start` is 0 (`Bitmaps.Bitmap.Scan`, `ScanAndFlip`); the model follows the code.
- `run_proc` keeps every page on its list once, in order of last use, if and only if the step is no fault, or a fault on a
  page that is not on the list, or on the one page that has to give up its frame (`Kernel.RunProc`). A fault on any other
  page on the list loads it into a second frame and lists it twice. There are two ways to get there: the interpreter returns
  1 for a line that was run, which is taken for a fault; or the scheduler asks for a line that the script does not have,
  because `count_lines` counts one line more than `fgets` delivers if the script ends in a newline, and one fewer for each
  blank line (`Scripts.CountAgainstRead`). The input, a script of two lines: `PagerRuns.ExtraLineRun`.

Whether a volume is in order is said of a given set of files: each of them has an inode with the magic number that
`recover(0)` looks for (a3/fs/fsutil2.c:250), and every operation keeps that number and the kind of the file, so a lost
sector of zeros is no file. Where the bytes of an inode, an index block, a directory entry and a word of the free map lie
is stated on the bytes themselves (`DiskFormat.InodeLayout` and its neighbours), for a little-endian machine whose compiler
lays the structs out without gaps but for the three bytes after `is_dir`.

The test `sector_idx < 0` in `inode_read_at` can never hold, as sector numbers are unsigned; the loop ends on the chunk
size instead, and the model shows that this is enough.

## Model

| member | source | states |
|---|---|---|
| `BufferCaches.BufferCache.constructor` | a3/fs/cache.c:21-28 | an empty cache shows exactly what is on the device |
| `BufferCaches.BufferCache.Flush` | a3/fs/cache.c:31-38 | the slot is clean and, if it was dirty, its sector is on the device; nothing else about any slot or the device changes, and the view stays |
| `BufferCaches.BufferCache.Close` | a3/fs/cache.c:40-47 | afterwards the device itself holds every byte of the view |
| `BufferCaches.BufferCache.Lookup` | a3/fs/cache.c:53-64 | the slot that holds the sector, or none exactly when the sector is not cached |
| `BufferCaches.BufferCache.Sweep` | a3/fs/cache.c:74-88 | the clock always stops; it gives second chances to exactly the slots it passes, and stops at the first that is empty or unreferenced, or where it began after 64 |
| `BufferCaches.BufferCache.Evict` | a3/fs/cache.c:71-99 | the victim is the slot the clock stops at, it is written back if it was dirty and ends up empty; no other slot loses its sector, and the view stays |
| `BufferCaches.BufferCache.Read` | a3/fs/cache.c:101-118 | returns the sector of the view and leaves the view as it was, through any eviction; a read dirties nothing, and the device changes only where the evicted slot was dirty |
| `BufferCaches.BufferCache.Write` | a3/fs/cache.c:120-138 | changes that sector of the view and no other; the slot is dirty and the device waits for the write-back |
| `Bitmaps.Bitmap.constructor` | a3/fs/bitmap.c:64-77 | a bitmap of that many bits, all false |
| `Bitmaps.Bitmap.Mark` | a3/fs/bitmap.c:143-148 | exactly one bit becomes true, across word boundaries |
| `Bitmaps.Bitmap.Reset` | a3/fs/bitmap.c:151-156 | exactly one bit becomes false |
| `Bitmaps.Bitmap.Flip` | a3/fs/bitmap.c:161-166 | exactly one bit changes |
| `Bitmaps.Bitmap.Test` | a3/fs/bitmap.c:169-173 | the bit of the sequence that the words stand for |
| `Bitmaps.Bitmap.SetMultiple` | a3/fs/bitmap.c:185-195 | a range of bits takes the value, the others keep theirs |
| `Bitmaps.Bitmap.CountBits` | a3/fs/bitmap.c:199-212 | the number of bits in the range that have the value |
| `Bitmaps.Bitmap.Contains` | a3/fs/bitmap.c:216-228 | true exactly when some bit of the range has the value |
| `Bitmaps.Bitmap.Scan` | a3/fs/bitmap.c:253-266 | the least start of a group of equal bits at or after a place, or the error value exactly when there is none; for a count of zero the place itself |
| `Bitmaps.Bitmap.ScanAndFlip` | a3/fs/bitmap.c:268-279 | the same search, and only the bits of that group change; for a count of zero the result is the start, which is 0 only if the start is |
| `Bitmaps.Bitmap.Load` | a3/fs/bitmap.c:288-296 | the bits become what the image says, padding cleared, for every number of bits |
| `Bitmaps.ImageRoundTrip` | a3/fs/bitmap.c:288-304 | the image of words that stand for a sequence of bits decodes to that sequence |
| `Bitmaps.ImageBits` | a3/fs/bitmap.c:288-304 | bit i of a bitmap lies in word i / 64 of its image, at place i % 64 |
| `Bitmaps.LastMaskBit` | a3/fs/bitmap.c:53-56 | the mask keeps exactly the bits of the last word that belong to the bitmap |
| `BitWords.WordRoundTrip` | a3/fs/bitmap.c:288-304 | a word written as eight bytes and read back is the same word |
| `BitWords.WordLayout` | a3/fs/bitmap.c:288-304 | the lowest eight bits of a word are its first byte, and so on up to the highest |
| `BitWords.BitPlace` | a3/fs/bitmap.c:35-39 | bit i of a word is the one that a shift by i brings to the lowest place |
| `BitWords.OrBit` | a3/fs/bitmap.c:143-148 | or with a one-bit mask sets that bit and no other |
| `BitWords.ClearBit` | a3/fs/bitmap.c:151-156 | and with the complement of a one-bit mask clears that bit and no other |
| `BitWords.XorBit` | a3/fs/bitmap.c:161-166 | exclusive or with a one-bit mask toggles that bit and no other |
| `DiskFormat.IndexRoundTrip` | a3/fs/inode.c:12-14 | an index block of 128 sector numbers survives being written to a sector and read back |
| `DiskFormat.IndexLayout` | a3/fs/inode.c:12-14 | entry i of an index block is the little-endian number in bytes 4i to 4i + 3, written and read |
| `DiskFormat.EncodeDecode` | a3/fs/inode.c:403 | writing an index block back as it was read changes no byte |
| `DiskFormat.InodeRoundTrip` | a3/fs/inode.h:19-28 | the one-sector inode, with its direct, indirect and double indirect pointers, survives too |
| `DiskFormat.InodeLayout` | a3/fs/inode.h:19-28 | where each field of a written inode lies: 123 pointers, the two indirect ones at 492 and 496, is_dir at 500, the length at 504 and the magic number, 44 4f 4e 49, at 508 |
| `DiskFormat.InodeReads` | a3/fs/inode.h:19-28 | and what any sector whatever reads as when it is taken for an inode |
| `BlockTree.LeavesApart` | a3/fs/inode.c:360-404 | in a well-formed tree no two data blocks share a sector |
| `BlockTree.TreeFrame` | a3/fs/inode.c:360-404 | a tree depends only on its own index blocks |
| `Growth.LiftGrowth` | a3/fs/inode.c:392-403 | when the trees below an index block have grown, so has the tree above, by the same sectors |
| `FileTree.FileLeavesApart` | a3/fs/inode.c:28-75 | no two data sectors of a file are the same |
| `FileTree.RawGrow` | a3/fs/inode.c:410-447 | a grown file keeps every data sector where it was and reads as before, followed by zeros |
| `BlockTree.LeafStays` | a3/fs/inode.c:392-403 | as long as index blocks lose no pointer, every data block of a tree is where it was |
| `FileTree.RawStays` | a3/fs/inode.c:392-403 | and a file whose data sectors are not touched keeps every byte |
| `FileTree.RawThrough` | a3/fs/inode.c:266-269 | an open inode that a refused growth left with more pointers than the one on the device still leads to the same bytes |
| `FileTree.RawWrite` | a3/fs/inode.c:292-317 | writing one data sector splices it into the raw contents at its place |
| `FileBytes.PointerCases` | a3/fs/inode.c:28-75 | the three ways to find a data sector agree with the block forest |
| `FileBytes.StoredLeaf` | a3/fs/inode.c:28-75 | within the file the pointer that is stored for a data sector leads to it |
| `FileBytes.ChunkRead` | a3/fs/inode.c:224-237 | a chunk inside one sector is the same bytes, taken from the file or from the sector |
| `FileBytes.ChunkWrite` | a3/fs/inode.c:292-317 | writing such a chunk splices it into the file, by the whole-sector path and by the bounce-buffer path |
| `VolumeSteps.ReservedMeaning` | a3/fs/inode.c:410-447 | after a reservation old data sectors keep their place and bytes, new ones are zero and were free, all are distinct, and the price is S(m) - S(n) |
| `VolumeSteps.ReleaseUndoes` | a3/fs/inode.c:449-508 | releasing a file frees what it had and what was reserved since; from an empty inode the free map returns to its value |
| `VolumeSteps.GrownVolume` | a3/fs/inode.c:264-274 | growing one file keeps the device invariant and every byte of every sector of every other ordinary file, and pads with zeros |
| `VolumeSteps.OverwroteVolume` | a3/fs/inode.c:276-323 | overwriting one file keeps the device invariant and every sector of every other file |
| `VolumeSteps.CreatedVolume` | a3/fs/inode.c:103-125 | a created inode is a new file of zeros, and owns exactly what was reserved for it |
| `VolumeSteps.RemovedVolume` | a3/fs/inode.c:183-186 | removing a file keeps the device invariant for the others |
| `VolumeSteps.TruncatedFile` | a3/fs/inode.c:264-274 | the write of no bytes at offset 0 leaves a file that the invariant does not allow |
| `VolumeSteps.OthersKept` | a3/fs/inode.c:264-274 | writing back one inode keeps every other file |
| `VolumeSteps.StuckKept` | a3/fs/inode.c:360-404 | a reservation that runs out of space keeps every sector of every other ordinary file |
| `Volumes.VolumeStep` | a3/fs/inode.c:360-447 | a step that changes one file, in sectors that were free or its own, keeps every sector with one owner |
| `Census.NodesCount` | a3/fs/inode.c:360-404 | a tree of k data sectors consists of exactly the sectors that the price counts |
| `Census.FileCount` | a3/fs/inode.c:410-447 | a file of n data sectors consists of exactly S(n) sectors beside its inode |
| `Census.Conservation` | a3/fs/free-map.c:22-48 | free sectors, loose sectors and 1 + S(n) for every file make up every bit of the free map |
| `Census.TotalBut` | a3/fs/free-map.c:22-48 | the total of the files does not depend on which file is counted first |
| `Census.RefusedVolume` | a3/fs/inode.c:264-269 | a growth that ran out of space keeps every other ordinary file, and of the file itself the inode on the device and every byte; the same set of files is not in order after it with fewer free sectors than before |
| `Gaps.EntryGap` | a3/fs/inode.c:395-400 | the entry that is refused a sector tells whether the whole tree is refused an index block |
| `Gaps.PointerGap` | a3/fs/inode.c:424-441 | the same for the two indirect pointers of an inode |
| `Gaps.GapsAt` | a3/fs/inode.c:379-384 | index blocks are due after 123 data sectors and, from 251 on, after every 128 |
| `Gaps.FullGap` | a3/fs/inode.c:379-384 | on a full device a growth is refused an index block exactly if one is due at once |
| `FileSystems.WipeExample` | a3/fs/inode.c:379-384 | one byte more for a file that fills its direct pointers, on a full device, is refused an index block |
| `FileSystems.FullRefused` | a3/fs/inode.c:415-422 | on a full device a new file is refused a data sector first, so sector 0 survives |
| `FileSystems.WipedMap` | a3/fs/inode.c:379-384 | sector 0 is then no inode any more, and the free-map file is lost |
| `FileSystems.FileSystem.constructor` | a3/fs/free-map.c:13-20 | sectors 0 and 1 are marked and nothing else is |
| `FileSystems.FileSystem.IndexToSector` | a3/fs/inode.c:28-75 | the pointer stored for an index, by division and remainder, whether the file reaches it or not, or the error value past the largest file |
| `FileSystems.FileSystem.ByteToSector` | a3/fs/inode.c:81-89 | the sector of the byte at a position, or the error value outside the file |
| `FileSystems.FileSystem.ReadAt` | a3/fs/inode.c:201-247 | exactly the bytes of the file from the offset up to the size asked for or the end |
| `FileSystems.FileSystem.WriteWithin` | a3/fs/inode.c:276-327 | a write that ends inside the file overwrites exactly those bytes, block by block |
| `FileSystems.FileSystem.BitmapWrite` | a3/fs/bitmap.c:300-304 | afterwards the free-map file decodes to the bitmap in memory, and only its own blocks changed |
| `FileSystems.FileSystem.Allocate` | a3/fs/free-map.c:31-41 | the least free sector is marked and the free-map file says so; it fails exactly when none is free |
| `FileSystems.FileSystem.Release` | a3/fs/free-map.c:44-48 | exactly one bit is cleared, in memory and in the free-map file |
| `FileSystems.FileSystem.NumFreeSectors` | a3/fs/free-map.c:22-24 | the number of free sectors |
| `FileSystems.FileSystem.IndexBlockOf` | a3/fs/inode.c:379-385 | a null pointer gets a zeroed block of its own, or, with no sector free, sector 0 is filled with zeros |
| `FileSystems.FileSystem.ReserveSector` | a3/fs/inode.c:367-377 | a data pointer leads to a sector, a new one being zero; it fails exactly when one is needed and none is free |
| `FileSystems.FileSystem.ReserveIndirect` | a3/fs/inode.c:360-404 | the tree reaches the data sectors asked for at exactly the price in sectors, or fails exactly when there are fewer, with sector 0 lost exactly at an index block |
| `FileSystems.FileSystem.ReserveEntries` | a3/fs/inode.c:392-402 | the same for the loop over the entries of an index block |
| `FileSystems.FileSystem.Reserve` | a3/fs/inode.c:410-447 | the same for a whole inode: it succeeds if and only if the free sectors cover S(m) - S(n) |
| `FileSystems.FileSystem.DeallocateIndirect` | a3/fs/inode.c:449-473 | every sector of a tree is released exactly once, so the assertion in free_map_release never fails |
| `FileSystems.FileSystem.Deallocate` | a3/fs/inode.c:475-508 | every block of a file is released exactly once, S(n) sectors in all |
| `FileSystems.FileSystem.Extend` | a3/fs/inode.c:264-274 | the first half of a write past the end: the file grows by zeros, its inode keeps kind and magic number and lies on the device byte by byte with the new length, and nothing outside the file and the free-map file changes; or it is refused, no file loses a byte, every free sector is lost, and the volume is in order exactly if there was none and sector 0 survives |
| `FileSystems.FileSystem.WriteAt` | a3/fs/inode.c:253-327 | with enough free sectors the file becomes what a flat byte sequence would, every other ordinary file keeps its bytes and blocks, and the free map pays exactly for the growth; refused, it changes no byte of any file; in every case the kind and the magic number stay; when the volume is in order afterwards, exactly, in all cases |
| `FileSystems.FileSystem.InodeCreate` | a3/fs/inode.c:103-125 | a file of zeros in the given sector, of the kind asked for, its inode stated byte by byte, if and only if there is room for it; otherwise every free sector is lost |
| `FileSystems.FileSystem.CreateIn` | a3/fs/filesys.c:69-84 | inode_create within filesys_create: a file of the kind asked for, in that sector; on failure the inode's sector is given back and other files are kept, and the volume is in order exactly if no other sector was free |
| `FileSystems.FileSystem.CreateFile` | a3/fs/filesys.c:67-84 | a new file of the kind asked for, in a sector no file had, if and only if there is room for inode, index blocks and data; on failure the volume is in order exactly if at most one sector was free, and then the free map is as before |
| `FileSystems.FileSystem.Open` | a3/fs/inode.c:130-158 | the in-memory inode is the one on the device |
| `FileSystems.FileSystem.DenyWrite` | a3/fs/inode.c:331-334 | the opener has denied writes, and the volume stays in order |
| `FileSystems.FileSystem.AllowWrite` | a3/fs/inode.c:339-343 | the opener has none denied, and the volume stays in order |
| `FileSystems.FileSystem.Read` | a3/fs/inode.c:201-247 | reading an open file gives what the flat contents say and changes nothing |
| `FileSystems.FileSystem.Remove` | a3/fs/inode.c:171-196 | inode and blocks go back to the free map, 1 + S(n) sectors, and every other file is kept |
| `FileSystems.FileSystem.DataSectors` | a3/fs/inode.c:510-579 | the nested walk lists the sectors that random access finds, in order, without repeats |
| `FileSystems.FileSystem.FreeMapCreate` | a3/fs/free-map.c:64-77 | on a blank device the free map gets a plain file that decodes to it, if and only if there is room for it |
| `FileSystems.FileSystem.FreeMapClose` | a3/fs/free-map.c:60 | the device then holds the volume, ready to be opened again |
| `FileSystems.FileSystem.FreeMapOpen` | a3/fs/free-map.c:51-57 | the bitmap in memory becomes the one in the free-map file |
| `FileSystems.Mount` | a3/fs/filesys.c:20-37 | a device that satisfies the invariant comes up with that free map and those files |
| `FileSystems.Remount` | a3/fs/filesys.c:41-45 | closing the cache and starting again loses nothing |
| `FlatModel.FilesChange` | a3/fs/inode.c:253-327 | when all files but one are kept, the flat map changes at that one only |
| `FlatModel.DirsChange` | a3/fs/inode.c:103-125 | and so does the set of those that are directories |
| `FlatModel.Perform` | a3/fs/inode.c:103-343 | after one operation, successful, refused or denied, the device is in order exactly if the flat state says so beforehand, and then it is one step of the flat model, contents and kinds of files included |
| `FlatModel.Can` | a3/fs/inode.c:264-269 | that can be decided beforehand from the free count and the length |
| `FlatModel.Run` | a3/fs/inode.c:103-343 | whatever the run, every reply, the contents and kinds of all files and the free count at every point are those of the flat model, the device is in order at the end, and the run stops only at an operation that would damage it or that no caller may ask for |
| `DirectoryFormat.EntryRoundTrip` | a3/fs/directory.h:22-26 | an entry survives being written and read back |
| `DirectoryFormat.EntryLayout` | a3/fs/directory.h:22-26 | where the sector number, the 31 bytes of the name and the mark lie in an entry of 36 bytes, written and read |
| `DirectoryFormat.PaddedBytes` | a3/fs/directory.c:294 | a name is followed by zeros up to the end of its field |
| `DirectoryFormat.TextOf` | a3/fs/directory.c:294 | a name copied into the padded field reads back as the same string |
| `DirectoryFormat.BindingsAre` | a3/fs/directory.c:187-196 | the map binds a name exactly when some slot after the first does, to what that slot says |
| `DirectoryFormat.PutBinding` | a3/fs/directory.c:286-296 | an entry put in a free slot or at the end inserts its binding and changes no other; names stay unique |
| `DirectoryFormat.DropBinding` | a3/fs/directory.c:335-338 | an entry taken out of use deletes its binding and no other |
| `DirectoryFormat.SlotWritten` | a3/fs/directory.c:296 | writing an entry at a multiple of the entry size changes that slot only, and the length stays a multiple |
| `Directories.Lookup` | a3/fs/directory.c:179-198 | finds the entry exactly when the map binds the name; the parent's entry is never found |
| `Directories.DirIsEmpty` | a3/fs/directory.c:201-212 | true exactly when the map is empty |
| `Directories.FindFree` | a3/fs/directory.c:286-290 | the first free slot or the end, never the parent's |
| `Directories.DirAdd` | a3/fs/directory.c:247-300 | succeeds if and only if the name is valid and new and there is room; then the table is the old one with that entry in its slot, the binding and no other is inserted, and every other file is kept; without room the volume is in order exactly if no sector was free and sector 0 survives |
| `Directories.DirRemove` | a3/fs/directory.c:305-346 | takes exactly that entry out of use, deletes that binding with its plain file and leaves the directory a directory, or fails exactly when the name is not bound |
| `Directories.DirCreate` | a3/fs/directory.c:52-75 | an inode marked as a directory, whose table is one entry for itself and zeros, so that it binds nothing, if and only if there is room; in order afterwards exactly if it succeeded or no sector was free |
| `Directories.Format` | a3/fs/filesys.c:155-162 | a blank device becomes one that holds the free-map file, closed and no directory, and an empty root that is one, if and only if there is room for both |
| `Directories.InitFormatted` | a3/fs/filesys.c:20-37 | from a device to a formatted volume that is open and in order, with a root that is a directory, if and only if there is room |
| `Filesys.Create` | a3/fs/filesys.c:54-88 | succeeds if and only if the name is valid and new and there are sectors for inode, data, index blocks and the directory's growth, and then binds the name to a file of zeros; exactly when the volume is in order after a failure, and then nothing has changed |
| `Filesys.AddEntry` | a3/fs/filesys.c:71-84 | the last part of it: the directory entry, or the inode's sector given back |
| `Filesys.UndoneWhole` | a3/fs/filesys.c:83-84 | an empty file that is given up leaves no trace |
| `Filesys.UndoneBroken` | a3/fs/filesys.c:83-84 | a file with data that is given up leaves sectors marked that no file owns |
| `Filesys.Remove` | a3/fs/filesys.c:128-138 | exactly that name goes, with its plain file, and the free map gains what the file used; or the name is not bound and nothing changes |
| `NamedModel.BindingsCount` | a3/fs/directory.c:286-290 | the directory is full exactly when it binds one name fewer than it has entries |
| `NamedModel.EntryFacts` | a3/fs/directory.c:286-296 | what one more entry costs can be told from the number of names and of entries |
| `NamedModel.CreatedNamed` | a3/fs/filesys.c:67-77 | after a creation every name is still bound to a plain file of its own and every file but the free map and the root has a name |
| `NamedModel.WroteNamed` | a3/fs/inode.c:253-327 | the same after a write, which changes what one name stands for |
| `NamedModel.RemovedNamed` | a3/fs/directory.c:305-346 | the same after a removal, which drops one name |
| `NamedModel.OpenFile` | a3/fs/filesys.c:95-122 | finds the file exactly when the name is bound |
| `NamedModel.CreateFile` | a3/fs/filesys.c:54-88 | creating by name is one step of the flat model, or leaves the device out of order exactly when the flat state says so beforehand |
| `NamedModel.WriteFile` | a3/fs/inode.c:253-327 | the same for writing by name |
| `NamedModel.ReadFile` | a3/fs/inode.c:201-247 | reading by name returns what the flat model says |
| `NamedModel.RemoveFile` | a3/fs/filesys.c:128-138 | removing by name is one step of the flat model |
| `NamedModel.Start` | a3/fs/filesys.c:20-37 | a formatted device has no names and a thousand entries |
| `NamedModel.Run` | a3/fs/filesys.c:54-138 | whatever the run, every reply, the names and contents of all files and the free count at every point are those of the flat model; the device is in order at the end, and the root is still a directory |
| `Witnesses.Formatted` | a3/fs/filesys.c:20-37 | a new device of any size from 75 to 4097 sectors is formatted and opened and has 75 sectors taken |
| `Witnesses.WipeRun` | a3/fs/inode.c:379-384 | format, fill the device with a file of 123 sectors, write one byte more: the free-map file is lost |
| `Witnesses.LeakRun` | a3/fs/inode.c:264-269 | write 513 bytes to an empty file with one sector free: nothing is written and the sector is lost |
| `Witnesses.TruncateRun` | a3/fs/inode.c:264-274 | write nothing at the start of a file of one byte: it has length 0 and the volume is not in order |
| `Witnesses.NameTakenRun` | a3/fs/filesys.c:69-84 | create a file of one sector under a name that is taken: it fails and the volume is not in order |
| `MergeSort.MergeSorted` | a3/fs/list.c:318-340 | merging two sorted runs gives a sorted run |
| `MergeSort.MergeStably` | a3/fs/list.c:318-340 | and a stable rearrangement of the two |
| `MergeSort.PassStably` | a3/fs/list.c:351-372 | a pass is a stable rearrangement |
| `MergeSort.PassRuns` | a3/fs/list.c:351-373 | a pass over r maximal runs leaves at most half of them, rounded up |
| `MergeSort.StableSortUnique` | a3/fs/list.c:342-376 | a stable sorting of distinct elements has one result, so what list_sort promises determines what it does |
| `IntrusiveLists.Cut` | a3/fs/list.c:167-169 | the run leaves its list, which closes behind it; the run stays linked |
| `IntrusiveLists.Paste` | a3/fs/list.c:171-175 | a linked run enters a list just before an element, all links and sentinels in order |
| `IntrusiveLists.Splice` | a3/fs/list.c:157-176 | a range of elements moves to another place of its own list, or to another list, and both are in order |
| `IntrusiveLists.List.constructor` | a3/fs/list.c:54-60 | an empty list with its sentinels |
| `IntrusiveLists.List.FindEndOfRun` | a3/fs/list.c:304-316 | stops at the end of the longest non-decreasing run |
| `IntrusiveLists.List.InplaceMerge` | a3/fs/list.c:323-340 | splices of single elements turn two sorted runs into their merge and touch nothing else |
| `IntrusiveLists.List.MergePass` | a3/fs/list.c:358-372 | one pass outputs half the runs, rounded up, each the merge of two |
| `IntrusiveLists.List.Sort` | a3/fs/list.c:345-376 | the same nodes, sorted, stable, links and sentinels in order, after at most max(1, log2 r rounded up) passes over r runs |
| `IntrusiveLists.List.Insert` | a3/fs/list.c:144-152 | the element is in the list just before the other |
| `IntrusiveLists.List.PushBack` | a3/fs/list.c:186-188 | the element is last |
| `IntrusiveLists.List.Remove` | a3/fs/list.c:216-221 | exactly that element leaves, and its successor is returned |
| `IntrusiveLists.List.InsertOrdered` | a3/fs/list.c:381-393 | a sorted list stays sorted, with the new element after its equals |
| `IntrusiveLists.List.Unique` | a3/fs/list.c:399-416 | the first of each group of adjacent equals stays, the others go to the end of the second list in order |
| `IntrusiveLists.KeptIncreases` | a3/fs/list.c:395-416 | of a sorted list a strictly increasing one is left |
| `IntrusiveLists.KeptAndDropped` | a3/fs/list.c:395-416 | no element is lost or doubled |
| `IntrusiveLists.DroppedHasEqual` | a3/fs/list.c:395-416 | only elements equal to one that stays are dropped |
| `IntrusiveLists.List.Reverse` | a3/fs/list.c:277-286 | the same nodes in reverse order, links and sentinels in order |
| `LinkedLists.LinkedList.constructor` | a3/linked_list.c:237-247 | an empty list |
| `LinkedLists.LinkedList.AddHead` | a3/linked_list.c:86-99 | the datum is first |
| `LinkedLists.LinkedList.AddTail` | a3/linked_list.c:64-77 | the datum is last |
| `LinkedLists.LinkedList.PopHead` | a3/linked_list.c:108-120 | takes off the first datum and returns it |
| `LinkedLists.LinkedList.PopTail` | a3/linked_list.c:217-229 | takes off the last datum and returns it |
| `LinkedLists.LinkedList.GetNodeByValue` | a3/linked_list.c:150-156 | the first node whose datum is equal to the target |
| `LinkedLists.LinkedList.RemoveElem` | a3/linked_list.c:189-197 | takes out exactly that node |
| `Recency.RecentOrder` | a3/kernel.c:60-65 | the list of recent pages is in the order of last uses |
| `Recency.RecentElements` | a3/kernel.c:60-65 | it has every page used, once |
| `Recency.TouchKeepsRecent` | a3/kernel.c:42-67 | moving to the front, and giving up the last when full, keeps the most recently used pages in order |
| `Recency.LastIsLeastRecent` | a3/kernel.c:47 | the page at the tail is the one whose last use is longest ago |
| `Recency.KeptAreMostRecent` | a3/kernel.c:42-67 | a page that was given up was last used before every page that is kept |
| `Recency.FaultOrder` | a3/kernel.c:45-62 | putting the loaded page first keeps the list right exactly if the page is not on it any more |
| `Scripts.CountLines` | a3/pcb.c:106-131 | one more than there are newlines that end a line which is not blank, or -1 for a file that cannot be opened |
| `Scripts.CountAgainstRead` | a3/pcb.c:106-131 | if every line fits the buffer, that is the number of lines fgets delivers, plus one if the script ends in a newline, less the blank lines |
| `Scripts.ReadWhole` | a3/pcb.c:86-94 | the lines that fgets delivers make up the script, however long they are |
| `Scripts.ReadShape` | a3/pcb.c:86-94 | a line ends at its newline, at 998 characters or at the end of the script, and nowhere else |
| `Frames.FirstFitAligned` | a3/shellmemory.c:69-85 | first fit tries every cell but only ever finds whole frames, at multiples of three |
| `Frames.FullExactly` | a3/shellmemory.c:67-87 | no three cells in a row are free exactly when floor(N/3) frames are taken |
| `Frames.FrameReused` | a3/kernel.c:46-58 | with no frame free, the frame that is given up is the one that first fit takes next |
| `Frames.TakeFrame` | a3/shellmemory.c:78-84 | taking the frame found keeps frames whole and apart |
| `Frames.GiveFrame` | a3/pcb.c:185-190 | so does giving one back |
| `Kernels.PidIsDecimal` | a3/pcb.c:81-82 | the owner written into a cell is the decimal numeral of the process number, so it reads back as that number |
| `Kernels.EveryLineHasPlace` | a3/pcb.c:161-163 | the pages of a script are as many as its counted lines need, and not one more |
| `Kernels.Kernel.constructor` | a3/kernel.c:20-27 | empty memory and empty lists satisfy the invariant |
| `Kernels.Kernel.FrameAlloc` | a3/shellmemory.c:67-87 | takes the first three free cells in a row for the page, or changes nothing exactly when there are none |
| `Kernels.Kernel.LoadPage` | a3/pcb.c:77-97 | up to three lines move from the script to the frame, and exactly those are valid |
| `Kernels.Kernel.ReadLines` | a3/pcb.c:86-94 | the next lines of the script, at most three, replace the values of the first cells of the frame and no other |
| `Kernels.Kernel.PageEvict` | a3/pcb.c:183-192 | the page's three cells are free and it has no valid line |
| `Kernels.Kernel.CpuRun` | a3/cpu.c:18-26 | a line that is not valid is a fault and counts nothing; a valid one counts once |
| `Kernels.Kernel.Load` | a3/pcb.c:77-97 | loading fails exactly when floor(N/3) pages have frames, and then changes nothing; otherwise the page gets the first free frame with the next lines of the script, and joins the pages that hold frames |
| `Kernels.Kernel.EvictLast` | a3/kernel.c:47-57 | the last page of the list is found by its process and gives up its frame; no other page and no other cell changes |
| `Kernels.Kernel.LoadAnyway` | a3/kernel.c:46-58 | the next lines of the script are in the cells of the page's frame, line by line, at the second try if the list has to give up its last page first; then the frame is that page's; every other cell is as before |
| `Kernels.Kernel.Fault` | a3/kernel.c:45-62 | the retry after an eviction succeeds; only the loaded page, the victim and the cells of the frame taken change, and those hold the next lines of the script; frames stay whole if the page had none left |
| `Kernels.Kernel.MoveToFront` | a3/kernel.c:64-65 | searching by place finds the page itself, and it moves to the front |
| `Kernels.Kernel.RunProc` | a3/kernel.c:42-67 | the result, the counters, the queue, the list and all cells after a step, for any line and any result of the interpreter; and exactly when the list is still duplicate-free, equal to the pages that have frames, and in order of last use |
| `Kernels.Kernel.LoadNext` | a3/pcb.c:46-65 | the next page of a new process gets the first free frame, and its lines of the script are in it |
| `Kernels.Kernel.PcbInit` | a3/pcb.c:20-68 | a new process has just enough pages for its counted lines and its first two in frames, each line of them in its cell and exactly those valid, all other cells as before, unless the script cannot be opened or there are too few frames |
| `Kernels.Kernel.NewProc` | a3/kernel.c:75-90 | succeeds if and only if the script can be opened and there are frames for its first pages; then the invariant is kept, every counted line has a place on a page, all cells outside the new frames are as before, the process is last on its lists and its pages are the most recent |
| `PagerRuns.ExtraLineRun` | a3/kernel.c:42-67 | a script of two lines that ends in a newline makes a page of the list occur twice |

## Left out

- FileSystems.FileSystem.Allocate: one sector at a time, as every caller in inode.c and filesys.c asks for; the branch that rolls back when the free-map file cannot be written is shown to be dead and is not modelled.
- FileSystems.FileSystem.Release: one sector at a time, for the same reason.
- FileSystems.FileSystem.Open: for one opener. The list of open inodes, open counts and inode_reopen (which does not count) are not part of the model, and inode_remove is modelled together with the last inode_close.
- Directories.DirAdd: plain files only. With is_dir the source writes an entry with an uninitialised name over the child's first slot.
- Directories.DirRemove: plain files that nobody else has open.
- Kernels.Kernel.RunProc: one step from a state in order; what further steps do to a list with a page on it twice is not followed.
- Kernels.Kernel.NewProc: where the script cannot be opened or there are too few frames the source ends the program, and here the result is false.
- Filesys.Create: plain files in the root directory, by name; with is_dir see DirAdd.
- Filesys.Remove: plain files in the root directory that nobody has open.
- NamedModel.Run: each operation opens its file and closes it again; files that stay open across operations are not followed.
- The three lists of a3/kernel.c are sequences in Kernels, so nothing is said there about their nodes; LinkedLists has the nodes.
- LinkedLists.LinkedList.GetNodeByValue: the target must be there, as the source runs past the tail otherwise; the equality is a pure function passed to the search.
- Schedulers, script parsing, line accounting, free_PCB and clear_frame.
- Path splitting, path lookup, readdir, the current directory, file positions and the open-file table.
- a3/fs/ide.c, a3/fs/block.c and a3/fs/partition.c: the device is an array of sectors.
- list_max, list_min, list_size and other one-line members of list.c and bitmap.c.
- Failure of malloc, struct padding, and overflow of C integers beyond the bounds stated above.
- a1 and a2.
