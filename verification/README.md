# LISP-DOS: a verification model

LISP-DOS is a small x86_64 operating system. This project models six of its parts in Dafny and proves
what they promise:

- **The FAT16 driver** (`Fat16*.dfy`). The disk is a sequence of 512-byte sectors that a `Driver` object
  reads and writes. On top of it stand, in this order, a volume (allocation table, root directory, data
  clusters), cluster chains, and a map from 11-byte names to byte strings. Every driver operation is a
  method with the loops of the original, proved against that map.
- **The page allocator** (`Pmm.dfy`). A bitmap in an array, changed bit by bit, proved against the set of
  free pages.
- **Page tables** (`PageTables.dfy`, `UserPaths.dfy`, `TableNeeds.dfy`, `Vmm.dfy`). Four-level tables in
  physical memory, written one entry at a time, proved against the translation they define, the access they
  grant, the frames they are made of and the frames they still need.
- **Program loading** (`ElfImage.dfy`, `Process.dfy`, `ProcessExample.dfy`). The loader's loops over program
  headers and pages, proved against the memory image that the headers describe, with the outcome decided by
  file and free frames, and every frame accounted for up to the exit of the program.
- **The LISP interpreter** (`LispReader.dfy`, `LispEval.dfy`, `LispRun.dfy`, `LispExample.dfy`). The reader and the evaluator
  over mutable tables, proved against functions on trees; about those functions, that reading undoes
  printing, that calls are substitution, and that running a listing executes its forms.
- **The text editor** (`Editor.dfy`). The flat buffer, shifted in place, proved to be an editor over a list
  of lines.

Methods state their effect in terms of a specification function (`Contents()`, `Free()`, `Frames`,
`Eval`, `View`), and the lemmas are about those functions; what these make of bytes, bits, key codes and
characters is stated once more with the values written out. Integers are unbounded; where the width of a C
type matters it is written out.

## What was found

- An overwrite releases the old chain before it looks for room. When room is short, the entry is left
  pointing at released clusters. `Fat16Write.WriteFailed` gives the exact condition, for every volume:
  after a refused write the volume is sound if and only if no entry of that name had clusters.
  `Fat16Example.FailedOverwrite` is a driver mounted on a disk on which it goes wrong. The design document's
  claim that a write which does not fit leaves the table untouched
  (doc/os-design/lisp_dos_specification.md:70) holds in the other cases (`Fat16Driver.WriteRefused`).
- A name whose first byte is 0xE5 is stored in an entry that reads as deleted: the write reports success,
  no file appears, and its clusters are lost (`Fat16Write.WriteHidden`, and with it
  `Fat16Driver.Driver.WriteFile`). A run of the driver loses clusters if and only if it completes such a
  write (`Fat16Run.RunLoses`); `Fat16Example.HiddenWrite` makes one on a mounted disk.
- The cluster search stops two clusters early: the last two clusters of a volume are never handed out
  (`Fat16Driver.Driver.AllocCluster`, through `Fat16Store.AllocLimit`).
- A program whose segments share a page, or use the stack page, costs a frame for good. `Process.LostExactly`
  gives the condition page by page for every loaded program, and `ProcessExample.LoseAFrame` loads one. A
  failed exec gives back everything else: `Process.RunToExit` says, for success and failure alike, that one
  frame is lost for every mapping that hits a page mapped before, among the mappings there were frames for;
  `ProcessExample.LoseOnFailure` is an exec that fails and loses a frame.
- A run of free pages that lies across the point where the last search stopped is not found;
  `Pmm.MissedExactly` says when a search finds nothing, and `Pmm.StraddlingRun` brings an allocator there.
- A file of more than 2^32 - 4096 bytes gets a buffer of no pages, and with that no buffer
  (`Process.FilePagesHold`).
- Errors among the arguments of a LISP operation are not passed on: each counts as zero, and only a division
  by zero or by nothing answers an error (`LispEval.ErrorsCountAsZero`). With `x` undefined, `(+ 1 x)` is 1
  (`LispEval.OnePlusUndefined`).
- The LISP reader accepts most scripts whose parentheses are not closed. It refuses an expression if and only
  if that starts with a closing parenthesis, or nothing but opening parentheses and blanks follows from its
  own to the end of the script, as in `((` (`LispReader.ExprRefused`, `LispReader.TwoOpens`). What it reads
  is free of errors inside if and only if every list it opens is closed (`LispReader.ExprWhole`).

## Model

| member | source | states |
|---|---|---|
| Fat16Names.FormatName | src/kernel/fat16.c:10-28 | the loop over the file name produces the 11 bytes that the parts before and after the first dot define: cut to 8 and 3 characters, blank-padded, in capitals |
| Fat16Names.FatNameBytes | src/kernel/fat16.c:10-28 | each of the eleven bytes, from the bytes of the name: the base up to the first dot and the extension behind it, letters a to z less 32, blanks where there is nothing |
| Fat16Names.FatNameCapital | src/kernel/fat16.c:15 | no stored name holds a letter a to z |
| Fat16Names.FatNameIgnoresCase | src/kernel/fat16.c:10-28 | names of one length that differ only where one has the capital of a letter a to z of the other name the same file |
| Fat16Names.FatNameInjective | src/kernel/fat16.c:10-28 | names already in 8.3 form, in capitals and without blanks, are kept apart |
| Bytes.LoadsLittleEndian | src/kernel/fat16.c:36 | a 16-, 32- or 64-bit load weighs the first byte least |
| Fat16Layout.FieldsParsed | src/kernel/fat16.h:16-36 | each field of the boot sector, whatever its value, is read from the place the format gives it |
| Fat16Layout.EntryOnVolume | src/kernel/fat16.c:30-37 | entry c of the table is the word at byte 2c of the first copy of the table |
| Fat16Layout.SlotOnVolume | src/kernel/fat16.c:133-136 | directory entry k is the k-th stretch of 32 bytes behind the copies of the table |
| Fat16Layout.ClusterOnVolume | src/kernel/fat16.c:152-160 | byte o of cluster c lies, counted from the first sector behind the root directory, c - 2 clusters and o bytes further on |
| Fat16Layout.ClustersOnVolume | src/kernel/fat16.c:54-59 | there are as many clusters as fit into the sectors behind the root directory |
| Fat16Layout.TablesFit | src/kernel/fat16.c:81-83 | on a sound volume the tables, the root directory and the clusters lie one after the other within the disk |
| Fat16Layout.ClustersApart | src/kernel/fat16.c:273 | distinct clusters occupy disjoint sectors |
| Fat16Layout.ClusterFits | src/kernel/fat16.c:152 | every cluster lies behind the root directory and within the volume |
| Fat16Layout.EntryWritten | src/kernel/fat16.c:39-50 | writing a table entry changes that one entry of the volume, and keeps the second copy equal to the first |
| Fat16Layout.SlotWritten | src/kernel/fat16.c:285-293 | rewriting one 32-byte slot in its sector changes that one directory entry of the volume |
| Fat16Layout.ClusterWritten | src/kernel/fat16.c:274-280 | writing within the sectors of one cluster changes that cluster of the volume and nothing else |
| Fat16Layout.TableDetermined | src/kernel/fat16.c:30-37 | equal tables mean equal table sectors: the 16-bit view of the table loses nothing |
| Fat16Chains.ChainUnique | src/kernel/fat16.c:151-167 | a first cluster has at most one chain |
| Fat16Chains.ChainMeans | src/kernel/fat16.c:151 | a chain goes on at the values 2 to 0xFFEF and ends at every other |
| Fat16Chains.FreedExactly | src/kernel/fat16.c:233-237 | on every table, cyclic or cross-linked ones included, the freeing walk zeroes exactly the clusters reachable from its start |
| Fat16Chains.FreedChain | src/kernel/fat16.c:318-322 | on a chain, the freeing walk zeroes exactly the clusters of the chain |
| Fat16Chains.ClosedTableStays | src/kernel/fat16.c:233-237 | when all links stay within the table, the freeing walk never leaves it |
| Fat16Chains.ClosedReadsExist | src/kernel/fat16.c:151-167 | when all links name existing clusters, a read of any length ends and visits only existing clusters, on cyclic chains too |
| Fat16Chains.WalkReadsBack | src/kernel/fat16.c:151-163 | reading along a chain that holds the chunks of a byte string gives back the string, without the padding |
| Fat16Chains.WalkFramed | src/kernel/fat16.c:151-163 | what is read along a chain depends only on the clusters of the chain |
| Fat16Chains.WalkLength | src/kernel/fat16.c:151-168 | a chain long enough for the size yields exactly that many bytes |
| Fat16Chains.PaddedMeans | src/kernel/fat16.c:273-280 | a chunk holds the bytes from its offset on, and zeros behind the end of the data |
| Fat16Raw.ClearDrops | src/kernel/fat16.c:233-237 | clearing a nonzero word, with the copy it makes, lowers a rank of the disk: why the freeing loop ends |
| Fat16Raw.LargeDiskSweeps | src/kernel/fat16.c:233-237 | on a disk with room for every 16-bit cluster number, the loop stays on the disk from any start, whatever the links are |
| Fat16Raw.SweptWithin | src/kernel/fat16.c:233-237 | the loop writes to no sector before the table, nor behind the last word a cluster number can mean and its copy |
| Fat16Raw.SweptInTable | src/kernel/fat16.c:233-237 | where the links stay in the table, the loop on the disk is the freeing walk on the table |
| Fat16Raw.RawWalkInVolume | src/kernel/fat16.c:151-167 | where the links name existing clusters, the read loop on the disk is the walk on the volume |
| Fat16Raw.LargeDiskReads | src/kernel/fat16.c:151-167 | on a disk that has every cluster a 16-bit number can mean, the read loop stays on the disk from any start |
| Fat16Files.OwnsUnique | src/kernel/fat16.c:146-148 | the volume determines which chain each entry owns |
| Fat16Files.EntryFields | src/kernel/fat16.h:38-52 | name, directory bit, first cluster and size of an entry in terms of its bytes; a first byte 0x00 or 0xE5 means there is none |
| Fat16Files.FileFound | src/kernel/fat16.c:133-146 | a live entry of a sound directory is the one its name finds |
| Fat16Files.ContentLength | src/kernel/fat16.c:148-168 | a file has as many bytes as its entry says |
| Fat16Files.FilesChanged | src/kernel/fat16.c:129-332 | a change confined to one slot and to clusters of no other file changes at most the file of that slot |
| Fat16Files.ReleasedOwns | src/kernel/fat16.c:231-237 | releasing the chain of an entry leaves every other entry owning its chain |
| Fat16Files.TakenOwns | src/kernel/fat16.c:247-283 | giving one entry a chain of clusters that were free keeps all chains in range, acyclic and pairwise disjoint |
| Fat16Files.ClustersConserved | src/kernel/fat16.c:52-68 | the number of free clusters changes by exactly the chain released and the chain taken, and the set of orphaned clusters stays the same |
| Fat16Files.FormattedVolume | src/kernel/fat16.c:133-138 | a volume with an empty directory is sound and holds no files |
| Fat16Store.BuildingStep | src/kernel/fat16.c:252-283 | one turn of the writing loop extends the chain under construction by one free cluster holding the next chunk |
| Fat16Store.RoomMeans | src/kernel/fat16.c:61-62 | the clusters the search can find are the free ones from 2 on, below 0xFFF0, without the last two of the volume |
| Fat16Store.BuildingChain | src/kernel/fat16.c:267-270 | the clusters linked so far form a chain that ends in the end mark |
| Fat16Store.BuildingRoom | src/kernel/fat16.c:61-68 | the allocator has lost exactly the clusters of the chain under construction |
| Fat16Store.BuildingUndone | src/kernel/fat16.c:256-263 | freeing the chain under construction restores the table as it was before the write |
| Fat16Store.EnoughMeansRoom | src/kernel/fat16.c:252-264 | a finished chain fits the room there was at the start: what fits and what is refused do not overlap |
| Fat16Store.BuildingOwns | src/kernel/fat16.c:285-293 | the finished chain, with its entry, is a file whose content is the data written |
| Fat16Write.ReleasedRoom | src/kernel/fat16.c:231-237 | an overwrite may use the old chain: room grows by exactly its clusters that the search can reach |
| Fat16Write.TargetMeans | src/kernel/fat16.c:205-245 | which entry a write uses, from the bytes of the directory: the live one with that name, or else the first whose first byte is 0x00 or 0xE5 |
| Fat16Write.WriteCompleted | src/kernel/fat16.c:247-295 | a completed write updates the map at one name, keeps the volume sound, and conserves clusters |
| Fat16Write.WriteHidden | src/kernel/fat16.c:288-292 | a completed write under a name that starts with 0xE5 adds no file; the chain it took, of clusters the search could find, belongs to no slot afterwards: the lost clusters grow by exactly that chain and the free ones shrink by it |
| Fat16Write.WriteFailed | src/kernel/fat16.c:254-265 | after a write that ran out of room the volume is sound if and only if no entry of that name had clusters; then table and files are as before |
| Fat16Write.FailedCleared | src/kernel/fat16.c:231-264 | an overwrite that ran out of room leaves the entry pointing at a cluster marked free |
| Fat16Write.SoundNotCleared | src/kernel/fat16.c:231-237 | in a sound volume no entry points at a cluster marked free |
| Fat16Write.DeleteCompleted | src/kernel/fat16.c:315-327 | a delete removes one name from the map, gives back exactly its chain, and keeps the volume sound |
| Fat16Driver.Driver.Init | src/kernel/fat16.c:70-84 | the geometry is taken from the boot sector if it carries the signature, and kept otherwise |
| Fat16Driver.Driver.GetFatEntry | src/kernel/fat16.c:30-37 | reads one entry of the table of a sound volume |
| Fat16Driver.Driver.SetFatEntry | src/kernel/fat16.c:39-50 | pointwise update of the table; only the entry's sector in the two copies changes; the copies stay equal |
| Fat16Driver.Driver.AllocCluster | src/kernel/fat16.c:52-68 | finds the lowest free cluster below the limit and marks it as end of chain; answers 0 exactly when there is none, changing nothing |
| Fat16Driver.Driver.FreeChain | src/kernel/fat16.c:232-237 | the loop ends on every disk, cyclic links and links out of the table included, and leaves the disk that clearing the words it meets, one after the other, gives |
| Fat16Driver.Driver.FreeOwned | src/kernel/fat16.c:232-237 | on a table whose links stay inside, it frees exactly what the freeing walk defines and leaves the rest of the volume as it was |
| Fat16Driver.Driver.FillSector | src/kernel/fat16.c:275-278 | the next 512 bytes of the data, zero-padded, and how far the data has been used |
| Fat16Driver.Driver.StoreCluster | src/kernel/fat16.c:272-280 | the next chunk of the data stands in the cluster, zero-padded |
| Fat16Driver.Driver.ExtendChain | src/kernel/fat16.c:267-280 | links a new cluster behind the chain under construction and fills it |
| Fat16Driver.Driver.RollBack | src/kernel/fat16.c:254-265 | the table is restored and every cluster that was in use keeps its bytes |
| Fat16Driver.Driver.WriteChain | src/kernel/fat16.c:247-283 | succeeds exactly when there is room, with the data in a new chain; otherwise everything is rolled back |
| Fat16Driver.Driver.NamesMatch | src/kernel/fat16.c:141-145 | the eleven-byte comparison accepts exactly equal names |
| Fat16Driver.Driver.ReadRootSector | src/kernel/fat16.c:134-136 | a directory sector holds the sixteen slots the volume has there |
| Fat16Driver.Driver.FindFile | src/kernel/fat16.c:133-146 | the directory scan finds the file of that name, if there is one |
| Fat16Driver.Driver.FindTarget | src/kernel/fat16.c:205-245 | the scan finds the entry with the name, or else the first reusable entry, or reports a full directory |
| Fat16Driver.Driver.CopySector | src/kernel/fat16.c:157-160 | the copied stretch of the buffer holds the start of the sector, the rest is as before |
| Fat16Driver.Driver.ReadCluster | src/kernel/fat16.c:152-165 | the buffer gets the bytes of one cluster up to the size of the file |
| Fat16Driver.Driver.ReadChain | src/kernel/fat16.c:147-168 | the read loop ends on every disk and copies into the buffer exactly the bytes that following the words of the disk yields, touching no other byte of it |
| Fat16Driver.Driver.ReadOwned | src/kernel/fat16.c:147-168 | on a volume whose links name existing clusters these are the bytes of the walk along the chain |
| Fat16Driver.Driver.PatchEntry | src/kernel/fat16.c:287-292 | only the slot at that place changes, to the filled entry |
| Fat16Driver.Driver.WriteRootSector | src/kernel/fat16.c:293 | writing a directory sector back changes one slot of the volume |
| Fat16Driver.Driver.UpdateEntry | src/kernel/fat16.c:285-293 | the directory entry is rewritten with name, attribute, first cluster and size; nothing else changes |
| Fat16Driver.Driver.GetFileSize | src/kernel/fat16.c:175-198 | answers the length of the named file, or 0 |
| Fat16Driver.Driver.ReadFile | src/kernel/fat16.c:129-173 | puts the content of the named file into the buffer and answers its length as an int |
| Fat16Driver.AsIntWraps | src/kernel/fat16.c:168 | a 32-bit size returned as an int is congruent to it modulo 2^32 and in the range of int |
| Fat16Driver.Driver.RemoveEntry | src/kernel/fat16.c:316-326 | the chain is released and the slot is marked as deleted, nothing else changes |
| Fat16Driver.Driver.DeleteFile | src/kernel/fat16.c:298-332 | the map loses the name; answers 1 if the file existed, and otherwise changes nothing; free clusters grow by exactly its chain |
| Fat16Driver.Driver.ReleaseEntry | src/kernel/fat16.c:228-237 | the chain of the entry with the name is released |
| Fat16Driver.Driver.FinishWrite | src/kernel/fat16.c:285-295 | a finished chain becomes the file of that name, with clusters conserved; under a name that starts with 0xE5 it becomes no file, and exactly its clusters are lost |
| Fat16Driver.Driver.WriteFile | src/kernel/fat16.c:201-296 | when name and data can be stored, the map is updated at the name, clusters are conserved and the volume stays sound, except that a name that starts with 0xE5 adds no file and loses as many clusters as the data takes; otherwise it answers 0, and unless an entry of that name has given up clusters, the tables, the directory and all files are as before |
| Fat16Driver.WriteRefused | src/kernel/fat16.c:254-265 | a refused write, unless an entry of that name has given up clusters, leaves both table copies and the root directory the same sector by sector, and all files |
| Fat16Run.Perform | src/kernel/fat16.c:129-332 | one operation of the driver is one step of the map machine, refusals included, and loses clusters only by storing under a name that starts with 0xE5, and then as many as the data takes; the exception is an overwrite of an entry with clusters for which there is no room: that it reports exactly, and what is left then |
| Fat16Run.Run | src/kernel/fat16.c:129-332 | any run of writes, deletes, reads and size queries gives the replies and the volumes of the map machine, and loses clusters if and only if it stores under a name that starts with 0xE5; it stops early only at an overwrite of an entry with clusters for which there is no room, after which the volume is not sound |
| Fat16Run.ClustersParted | src/kernel/fat16.c:61-66 | every cluster of a sound volume is free, in use or lost, and only one of these |
| Fat16Run.StepConserves | src/kernel/fat16.c:129-332 | one operation loses exactly the clusters it hides, as many as the data takes |
| Fat16Run.RunConserves | src/kernel/fat16.c:129-332 | over any run the lost clusters grow by exactly those that were hidden, and free clusters and clusters in use together shrink by as many |
| Fat16Run.RunLoses | src/kernel/fat16.c:201-296 | a run loses clusters if and only if it completes a write under a name that starts with 0xE5 |
| Fat16Run.LooksCleared | src/kernel/fat16.c:231-264 | re-reading the entry tells whether an overwrite has failed |
| Fat16Example.DiskSound | src/kernel/fat16.c:70-84 | a disk of eight sectors holds a sound volume with one file |
| Fat16Example.MountedDriver | src/kernel/fat16.c:70-84 | the driver mounts that disk from its boot sector and is in a valid state |
| Fat16Example.FailedOverwrite | src/kernel/fat16.c:231-264 | an overwrite through the driver on that disk answers 0 and leaves a volume that no assignment of chains makes sound |
| Fat16Example.RoomForOne | src/kernel/fat16.c:61-68 | on that disk one cluster is in reach of the search and none is lost |
| Fat16Example.HiddenWrite | src/kernel/fat16.c:201-296 | a write of one byte under the name 0xE5 answers 1; the files are what they were, and that one cluster is lost |
| Pmm.MaskedApart | src/kernel/pmm.c:26-36 | setting or clearing one bit of a byte leaves the other seven |
| Pmm.MaskMeans | src/kernel/pmm.c:26-36 | the mask of bit k is one shifted left k times |
| Pmm.BitSet | src/kernel/pmm.c:26-28 | setting a bit of the bitmap sets that bit only |
| Pmm.BitCleared | src/kernel/pmm.c:30-32 | clearing a bit of the bitmap clears that bit only |
| Pmm.SinglePage | src/kernel/pmm.c:92-112 | a single page is refused exactly when no page is free |
| Pmm.MissedExactly | src/kernel/pmm.c:118-154 | a run is refused exactly when every free run of that length lies across the last position |
| Pmm.TakenMeans | src/kernel/pmm.c:92-155 | where pages are taken: a run of free ones, the lowest from the last position on, or else, where there is none up to the end, the lowest before it |
| Pmm.StraddlingRun | src/kernel/pmm.c:92-164 | an allocator brought there by its own operations has two adjacent free pages and refuses a run of two |
| Pmm.Allocator.Test | src/kernel/pmm.c:34-36 | tells whether a page is taken |
| Pmm.Allocator.Set | src/kernel/pmm.c:26-28 | takes that page from the free pages, no other |
| Pmm.Allocator.Clear | src/kernel/pmm.c:30-32 | adds that page to the free pages, no other |
| Pmm.Allocator.AllocPage | src/kernel/pmm.c:92-112 | takes the first free page at or after the last position, or else the first before it; refuses exactly when none is free |
| Pmm.Allocator.FindRun | src/kernel/pmm.c:121-135 | the counting scan finds the first run of free pages in its range, or there is none |
| Pmm.Allocator.SetRun | src/kernel/pmm.c:127 | takes exactly the pages of the run |
| Pmm.Allocator.Take | src/kernel/pmm.c:127-130 | takes the run, and keeps free memory at 4096 times the number of free pages and the last position within the bitmap |
| Pmm.Allocator.AllocPages | src/kernel/pmm.c:114-155 | takes exactly a run that was free, the first one from the last position on or else from the start; refuses exactly when neither range holds one |
| Pmm.Allocator.FreePage | src/kernel/pmm.c:157-164 | the page is free afterwards, and freeing twice changes nothing: free memory stays 4096 times the number of free pages |
| PageTables.EntryStored | src/kernel/vmm.c:57-78 | storing one 64-bit entry of a table changes that entry only |
| PageTables.IdxDetermine | src/kernel/vmm.c:52-55 | the four table indices tell user pages apart |
| PageTables.BelowApart | src/kernel/vmm.c:81-110 | in a proper table tree, the frames under different entries are different frames |
| PageTables.LeavesApart | src/kernel/vmm.c:94-99 | different pages of a proper tree are backed by different frames |
| PageTables.LeafNotTable | src/kernel/vmm.c:77-100 | no page of a proper tree is backed by a frame that is a table |
| PageTables.ChangedTree | src/kernel/vmm.c:57-78 | changing one entry of a proper tree leaves a proper tree, whose frames change by what hung at the entry and what hangs there now |
| PageTables.ChangedWalk | src/kernel/vmm.c:57-78 | changing one entry changes the translation of exactly the pages whose path goes through it |
| PageTables.TableAddedEffect | src/kernel/vmm.c:57-75 | a new zeroed table adds one frame and no mapping |
| PageTables.LeafSetEffect | src/kernel/vmm.c:77-78 | setting a leaf is a pointwise update of the translation |
| PageTables.PageWritten | src/kernel/process.c:119-131 | writing to a mapped page changes no translation and no table |
| UserPaths.ChangedUser | src/kernel/vmm.c:57-78 | writing a leaf, or an entry with the user bit, leaves user mode its way through the tables to every page |
| UserPaths.PageWrittenUser | src/kernel/process.c:119-131 | writing to a mapped page changes no access right |
| TableNeeds.MissingChanged | src/kernel/vmm.c:57-78 | one entry write changes how many tables are missing for exactly the pages whose path goes through it |
| TableNeeds.PageWrittenMissing | src/kernel/process.c:119-131 | writing to a mapped page supplies and removes no table |
| TableNeeds.NeedCounts | src/kernel/vmm.c:57-75 | a list of mappings takes a frame for each, and one for each page table, directory and pointer table its pages lie under, whatever the order |
| TableNeeds.NeedGrows | src/kernel/vmm.c:57-75 | more mappings take more frames |
| Vmm.Machine.AllocFrame | src/kernel/vmm.c:25-26 | a free frame, or 0 exactly when none is free |
| Vmm.Machine.CopyUpperHalf | src/kernel/vmm.c:31-34 | the upper half of the root is that of the kernel, the lower half is unchanged |
| Vmm.Machine.NewPagemap | src/kernel/vmm.c:24-37 | an empty user half made of one frame, with the kernel's upper half; refuses exactly when no frame is free |
| Vmm.Machine.EnsureTable | src/kernel/vmm.c:57-63 | after the step the next table exists, for every page that shares the path that far; a new one comes from the free frames, and no translation changes |
| Vmm.Machine.EnsurePath | src/kernel/vmm.c:57-77 | after the three steps the page table exists, no translation has changed, frames were taken for the missing tables only, and every page lacks what it lacked or what it has apart from this one |
| Vmm.Machine.MapPage | src/kernel/vmm.c:49-79 | pointwise update of the translation; every byte of the pages mapped before and the kernel half are untouched; frames are taken for missing tables only, and only a frame mapped at the page before is dropped |
| Vmm.Machine.FreePageTable | src/kernel/vmm.c:95-100 | the innermost loop gives back every page of a table once, and then the table |
| Vmm.Machine.FreePageDirectory | src/kernel/vmm.c:92-103 | the same for the tables of a directory |
| Vmm.Machine.FreePointerTable | src/kernel/vmm.c:89-106 | the same for the directories of a pointer table |
| Vmm.Machine.FreeRoot | src/kernel/vmm.c:86-109 | the same for the lower half of the root |
| Vmm.Machine.FreePagemap | src/kernel/vmm.c:81-110 | gives back the root, every lower-half table and every mapped frame, each exactly once, and nothing else |
| Vmm.BuildAndFree | src/kernel/vmm.c:24-110 | a new address space, fresh frames mapped at distinct pages, and its teardown restore the set of free frames, given exactly the frames that the pages and their tables take |
| Vmm.LeafDecides | src/kernel/vmm.c:125-144 | where the tables let user mode through, the leaf alone decides what the check answers |
| Vmm.EntryBits | src/kernel/vmm.c:52-78 | of an entry, bit 0 is present, bit 1 writable, bit 2 user, and the frame is what the low twelve bits leave |
| Vmm.WalkLoads | src/kernel/vmm.c:52-77 | one step of a translation in terms of the eight bytes loaded at nine bits of the address |
| Vmm.UserLoads | src/kernel/vmm.c:125-144 | one step of an access check in the same terms: present and user at every level, writable at the last if asked |
| Vmm.AccessMeans | src/kernel/vmm.c:122-144 | an access concerns the page of its address and the byte that the low twelve bits number |
| Vmm.EntriesWritten | src/kernel/vmm.c:57-78 | a table is entered with the bits present, writable and user, a page with the flags asked for and the bit present |
| Vmm.Machine.CheckPage | src/kernel/vmm.c:125-144 | the four tests accept exactly the pages that are present and user at all levels, and writable if asked |
| Vmm.Machine.CheckPages | src/kernel/vmm.c:121-146 | the page loop accepts exactly when every byte of the range lies on an accepted page |
| Vmm.Machine.CheckUserPtr | src/kernel/vmm.c:112-147 | with the tables in memory, accepts exactly the empty range, and the ranges that end below 2^47 without wrapping and lie byte for byte on user pages |
| Vmm.Machine.CheckUserString | src/kernel/vmm.c:149-183 | with tables and pages in memory, ends, and accepts exactly when some NUL below 2^47 is reached over user pages only |
| Vmm.Machine.ReadUser | src/kernel/vmm.c:176-180 | the string check reads only bytes on pages it has just accepted |
| Vmm.TreeIn | src/kernel/vmm.c:49-79 | what mapping pages builds has all its tables and pages in memory |
| ElfImage.SegmentByte | src/kernel/process.c:104-132 | in the specified image, byte k of a segment is byte offset + k of the file below the file size, and zero above |
| ElfImage.SegmentParsed | src/kernel/elf.h:33-42 | each field of a program header, whatever its value, is read from the place the format gives it |
| ElfImage.HeaderParsed | src/kernel/elf.h:16-31 | the magic is the four bytes 7F 45 4C 46; entry point, place and number of the program headers are the bytes at 24, 32 and 56 |
| ElfImage.HeadersFitMeans | src/kernel/process.c:70 | the program headers pass if and only if they start within the file and none of them ends outside |
| ElfImage.SegmentInFile | src/kernel/process.c:91-95 | program header i in terms of the bytes of the file |
| ElfImage.ReachMeans | src/kernel/process.c:98-103 | the header that is refused, if one is, is the first loadable one at or above 2^47 |
| ElfImage.CoversBytes | src/kernel/process.c:104-109 | a segment with something in memory is loaded to exactly the pages that hold a byte of it |
| ElfImage.CoversEmpty | src/kernel/process.c:104-109 | one with nothing in memory takes a page only if its address is not the start of one |
| ElfImage.PaddingByte | src/kernel/process.c:119-132 | bytes of a segment's pages that the segment does not have in the file are zero |
| ElfImage.ImageShows | src/kernel/process.c:90-135 | when segments lie on separate pages, each shows its own bytes |
| ElfImage.VisitsCovered | src/kernel/process.c:90-117 | the pages mapped are those that some loadable segment covers |
| ElfImage.VisitsDistinct | src/kernel/process.c:104-117 | no page is mapped twice exactly when no two segments share one |
| ElfImage.ImageKeys | src/kernel/process.c:104-117 | the image has the pages that are mapped |
| Process.LoadBuffer | src/kernel/process.c:41-55 | the frames of the buffer hold the file, and no other frame changes |
| Process.ReadBuffer | src/kernel/process.c:62 | reading through the buffer gives the bytes of the file |
| Process.FreeBuffer | src/kernel/process.c:58 | every frame of the buffer is free again |
| Process.ReadHeader | src/kernel/process.c:89-95 | program header i is read from where the file has it |
| Process.FillPage | src/kernel/process.c:119-132 | zeroing a frame and copying the right stretch of the file gives the page the image specifies, for every alignment |
| Process.CopyIn | src/kernel/process.c:131 | the stretch of the frame holds the stretch of the file, the rest of it is as before |
| Process.AllocAndMap | src/kernel/process.c:110-117 | one frame is taken and mapped, or none was free, or there are not enough for the tables: which of these is decided by what was mapped before and the frames there were; every frame is accounted for |
| Process.MapFresh | src/kernel/process.c:117 | the page shows the new frame; a frame shown there before is lost |
| Process.LoadPage | src/kernel/process.c:110-132 | one page of a segment is allocated, mapped and filled, with the same three ends |
| Process.LoadSegment | src/kernel/process.c:104-133 | the page loop loads every page of the segment over what was shown before, or stops at the first page for which the frames do not suffice |
| Process.LoadHeader | src/kernel/process.c:91-134 | a header is refused exactly when it is the first loadable one beyond the user half; others that are not loadable change nothing; the rest add their pages |
| Process.LoadSegments | src/kernel/process.c:89-135 | the header loop builds the image that the program headers specify, and ends as the list of its mappings and the number of frames decide: at the header it refuses, at the page it has no frame for, or at the end; when it ends, it has mapped as many pages of that list as there are frames for |
| Process.FateStops | src/kernel/process.c:109-117 | where one mapping of a plan fails, the plan fails in the same way: how it ends is a function of the plan and the number of frames |
| Process.AffordedStops | src/kernel/process.c:109-117 | where one mapping fails, the pages mapped are those of the plan, in order, that there are frames for |
| Process.WriteArgs | src/kernel/process.c:149-160 | the arguments and their NUL end the page, the rest of it is as before |
| Process.SetUpStack | src/kernel/process.c:137-160 | the stack page is mapped and carries the arguments and their NUL at its top, or there are not frames enough |
| Process.Abandon | src/kernel/process.c:111-115 | giving up frees the buffer and the whole address space |
| Process.ExecSpace | src/kernel/process.c:89-162 | from the new address space on: which outcome occurs; every failure gives everything back but one frame for every page mapped again, among the pages there were frames for; success leaves the loaded program |
| Process.ReleaseBuffer | src/kernel/process.c:162 | freeing the buffer leaves the loaded program and nothing else |
| Process.ExecBuffer | src/kernel/process.c:57-162 | each check has its outcome, in order, and every early return gives back the buffer and the space, but for one frame for every page mapped again |
| Process.ExecRead | src/kernel/process.c:49-168 | from the reading of the file on: the outcome, the memory and the frames lost are those that the file in its buffer and the frames left decide |
| Process.Exec | src/kernel/process.c:28-168 | which outcome occurs, for every file and every set of free frames; a running program has exactly its image and its stack; every frame is accounted for, and the frames lost are as many as the mappings that hit a page mapped before, which needs a file that maps a page twice |
| Process.RunsExactly | src/kernel/process.c:82-167 | a file in order runs if and only if there are free frames for its buffer, the root, its pages, the stack and the tables they lie under |
| Process.FirstOutcomes | src/kernel/process.c:28-47 | an empty file is not found; there is no buffer if and only if the size is above 2^32 - 4096 or no run of that many pages is free |
| Process.CheckOutcomes | src/kernel/process.c:57-87 | which outcome stands for which failed check, in order, in terms of the bytes of the file |
| Process.SpaceOutcomes | src/kernel/process.c:89-145 | which outcome stands for which end of the load, in terms of the pages to be mapped and the frames there are |
| Process.FilePagesHold | src/kernel/process.c:41 | the buffer holds the file, except for the largest sizes, where 32-bit arithmetic wraps to no pages at all |
| Process.TwiceMeans | src/kernel/process.c:104-145 | page by page or as a list, it is the same for no page to be mapped twice |
| Process.LostOnTheWay | src/kernel/process.c:109-117 | at every stage of a load as many frames have been lost as mappings have hit a page mapped before, so some if and only if a page has been mapped twice |
| Process.LostExactly | src/kernel/process.c:117 | a loaded program has lost frames if and only if two of its segments share a page or one of them has the stack page |
| Process.LostMeansTwice | src/kernel/process.c:104-145 | an exec that loses frames, at whatever stage it ends, has been given a file whose segments share a page, or one of them and the stack |
| ProcessExample.SharesAPage | src/kernel/process.c:104-117 | a file of two headers that map one page twice |
| ProcessExample.LoseAFrame | src/kernel/process.c:28-168 | with eleven free frames that program runs, and after its exit a frame is missing |
| ProcessExample.LoseOnFailure | src/kernel/process.c:111-145 | with seven free frames the exec of that program fails for want of a stack, and exactly one frame is missing afterwards |
| Process.LoadedByte | src/kernel/process.c:89-135 | in the memory of the loaded program, byte vaddr + k is byte offset + k of the file for k below the file size, and 0 up to the memory size |
| Process.LoadedFileByte | src/kernel/process.c:89-168 | the same with address, offset, file size and memory size read from the bytes of the file at 16, 8, 32 and 40 of the program header; execution starts at the address in the file header |
| Process.LoadedArgs | src/kernel/process.c:147-160 | the running program finds its arguments and a NUL at its stack pointer, right below the end of the stack page; without arguments the stack pointer is that end |
| Process.LoadedPadding | src/kernel/process.c:119-132 | a byte of a loaded page that its segment does not have in the file is zero |
| Process.LoadedAccess | src/kernel/vmm.c:112-147 | a loaded program may read and write exactly the pages of its image and its stack, as the system call checks see it |
| Process.Exit | src/kernel/syscall.c:96-104 | leaving a program gives back exactly the frames of its address space |
| Process.RunToExit | src/kernel/syscall.c:96-104 | from exec to exit the set of free frames is restored, except for one frame for every mapping that hits a page mapped before, among the mappings there were frames for; after a program has run, frames are missing if and only if its segments share a page or use the stack page; which outcome the exec has is the same as before |
| LispReader.PrintInt | src/tools/lisp.c:14-21 | the digits produced backwards and put out in reverse are the decimal form |
| LispReader.Reader.Peek | src/tools/lisp.c:94-97 | skips blanks and shows the next character |
| LispReader.Reader.ReadAtom | src/tools/lisp.c:101-127 | reads the characters up to one that ends an atom, keeps 31 of them, and tells numbers from symbols |
| LispReader.LooksNumeric | src/tools/lisp.c:112-116 | accepts exactly digits with an optional minus sign in front |
| LispReader.NumberOf | src/tools/lisp.c:117-123 | the accumulated value is that of the numeral |
| LispReader.AtomRead | src/tools/lisp.c:101-127 | any atom of 1 to 31 characters, character by character: behind an optional minus sign in front of something, digits make the number they mean; anything else is the symbol of that name |
| LispReader.AtomCut | src/tools/lisp.c:105 | of a longer atom the first 31 characters count |
| LispReader.OperatorsRead | src/tools/lisp.c:112-116 | + - * and / alone are read as symbols, the minus sign included |
| LispReader.SpaceSkipped | src/tools/lisp.c:94-97 | a blank, a tab or an end of line in front makes no difference to what is read |
| LispReader.NulEnds | src/tools/lisp.c:130-131 | a NUL ends the script |
| LispReader.Reader.Expr | src/tools/lisp.c:129-138 | reads what the grammar function defines and leaves the cursor where it says |
| LispReader.Reader.Items | src/tools/lisp.c:140-150 | the same for the rest of a list |
| LispReader.DecimalReadBack | src/tools/lisp.c:14-21 | every printed int is read back as itself, from at most eleven characters |
| LispReader.DecimalStarts | src/tools/lisp.c:14-21 | the decimal form has a minus sign for negative numbers only and no zero in front |
| LispReader.ReadBack | src/tools/lisp.c:129-150 | reading the canonical text of any S-expression over atoms of at most 31 characters gives that S-expression and stops right after it |
| LispReader.LeadingBlank | src/tools/lisp.c:94-97 | a blank in front makes no difference to what is read |
| LispReader.ExprRefused | src/tools/lisp.c:129-138 | for every text: an expression is refused if and only if it starts with a closing parenthesis, or only blanks and opening parentheses follow from its own to the end of the script |
| LispReader.ListRefused | src/tools/lisp.c:140-150 | for every text: the rest of a list is refused, with the message EOF, if and only if only blanks and opening parentheses are left |
| LispReader.TwoOpens | src/tools/lisp.c:140-150 | two opening parentheses are refused, although the outer list has an element |
| LispReader.ListWhole | src/tools/lisp.c:140-150 | for every text: the rest of a list is read without an error in it if and only if the script closes that list and those in it; the cursor is then behind its closing parenthesis |
| LispReader.ExprWhole | src/tools/lisp.c:129-138 | for every text: an expression is read without an error in it if and only if the script closes every list it opens |
| LispReader.UnclosedList | src/tools/lisp.c:146-149 | a list of whole elements that lacks only its own closing parenthesis is read as those elements with the error for a tail; only the empty one is refused |
| LispEval.TruncDivRemainder | src/tools/lisp.c:251-253 | division truncates toward zero: the remainder is smaller than the divisor and has the dividend's sign |
| LispEval.FormulaEvaluates | src/tools/lisp.c:233-256 | a formula over the four operations evaluates to its arithmetic meaning, unless an operator has been rebound |
| LispEval.SumEvaluates | src/tools/lisp.c:235-239 | (+ ...) over any number of ints up to sixteen is their sum, and a fault if and only if the sum of the first few is no int |
| LispEval.ProductEvaluates | src/tools/lisp.c:246-250 | ( * ...) is the product, and a fault if and only if the product of the first few is no int |
| LispEval.DifferenceEvaluates | src/tools/lisp.c:240-245 | (- n ...) is n less the sum of the rest, (- n) is -n; a fault if and only if there is no argument or something on the way is no int |
| LispEval.QuotientEvaluates | src/tools/lisp.c:251-254 | (/ a b ...) is the quotient of the first two cut off towards zero, whatever follows |
| LispEval.ArgumentNext | src/tools/lisp.c:224-231 | arguments are evaluated from left to right, each in the state the one before it has left |
| LispEval.TooManyArguments | src/tools/lisp.c:223-230 | a seventeenth argument is a fault |
| LispEval.NameEvaluates | src/tools/lisp.c:175-189 | a name means its local value, failing that its global one, failing that itself if it names an operation; otherwise there is an error |
| LispEval.GlobalSet | src/tools/lisp.c:161-173 | an assignment sets the name unless it is new and there are 128 names already |
| LispEval.Substitution | src/tools/lisp.c:192-288 | evaluating any tree under self-evaluating locals is evaluating, without locals, the tree with their values put in; results and global state agree |
| LispEval.CallSubstitutes | src/tools/lisp.c:269-282 | calling a user function with numbers is evaluating its body with the numbers put in, in an empty environment |
| LispEval.BindMeans | src/tools/lisp.c:273-280 | each parameter is bound to the argument at its place, the first of two with one name |
| LispEval.BindNoMore | src/tools/lisp.c:275 | parameters without an argument stay unbound |
| LispEval.DefinedThenCalled | src/tools/lisp.c:203-211 | a function just defined answers a call with its body, the numbers put in; defining it prints nothing and leaves every other name alone |
| LispEval.AssignedThenRead | src/tools/lisp.c:212-217 | an assigned name has the value afterwards, which the assignment also answers; every other name keeps its own |
| LispEval.ErrorsCountAsZero | src/tools/lisp.c:229-256 | whatever the arguments of + - * / are and wherever errors stand among them, the form evaluates as if each error were zero, and to an error if and only if it divides by zero or by nothing |
| LispEval.OnePlusUndefined | src/tools/lisp.c:229-241 | where nobody has defined x, (+ 1 x) evaluates to 1 |
| LispEval.BuiltinErrors | src/tools/lisp.c:233-268 | a built-in that answers at all answers an error if and only if it is a division by zero or by nothing |
| LispEval.ErrorsPrintNothing | src/tools/lisp.c:257-266 | printing leaves an error out and puts its blank only |
| LispEval.EvalKeepsGlobals | src/tools/lisp.c:192-288 | where neither the tree nor any function in reach defines or assigns, the globals stay as they are and output only grows, however evaluation ends |
| LispEval.PureCall | src/tools/lisp.c:220-282 | for such code a call with numbers does not depend on the caller's locals, equals the substituted body, and leaves the globals unchanged |
| LispEval.MoreFuel | src/tools/lisp.c:281 | a result reached with some depth of calls is reached with any greater depth |
| LispRun.FirstEntryCounts | src/tools/lisp.c:176-181 | in a table with repeated names the first entry counts |
| LispRun.EntryReplaced | src/tools/lisp.c:162-167 | overwriting the first entry of a name is setting the name |
| LispRun.TableSize | src/tools/lisp.c:168-172 | a table without repeated names is as long as the map it means |
| LispRun.Interpreter.EnvSet | src/tools/lisp.c:161-173 | sets the name in the map of globals; a full table takes no new name |
| LispRun.Interpreter.EnvGet | src/tools/lisp.c:175-189 | locals before globals before built-in names; otherwise an error |
| LispRun.Interpreter.Fold | src/tools/lisp.c:236-248 | the accumulating loops compute the left-to-right fold, and stop at an int overflow |
| LispRun.Interpreter.ApplyBuiltin | src/tools/lisp.c:233-268 | the argument loops compute what application of a built-in means |
| LispRun.Interpreter.LineOf | src/tools/lisp.c:257-266 | the printing loop puts out each number or symbol followed by a blank |
| LispRun.Interpreter.BindArgs | src/tools/lisp.c:270-280 | the binding loop builds the local table of the call |
| LispRun.Interpreter.Define | src/tools/lisp.c:203-211 | a definition sets the name to the function; one without a name or parameter list is a fault |
| LispRun.Interpreter.Evaluate | src/tools/lisp.c:192-288 | the evaluator over tables computes the value, the globals and the output that evaluation means |
| LispRun.BoundTableMeans | src/tools/lisp.c:270-280 | the local table of a call binds parameters to arguments, as many as there are of both |
| LispRun.Interpreter.ShowResult | src/tools/lisp.c:344-356 | the last value is shown in its form |
| LispRun.Interpreter.Run | src/tools/lisp.c:316-357 | the main loop reads and evaluates the forms of a script, stops at the first error with its message, and shows the last value |
| LispRun.ListingExecutes | src/tools/lisp.c:323-342 | running the text of a program executes its forms in order |
| LispExample.OperationShown | src/tools/lisp.c:316-357 | the text of an operation on any two ints is read and evaluated, and its result shown in decimal |
| LispExample.MinusShown | src/tools/lisp.c:112-116 | the script (- 5 3) shows 2 |
| LispExample.FormThenRest | src/tools/lisp.c:324-342 | a form with a value is evaluated where it stands, and the script goes on behind it in the state it has left |
| LispExample.AssignmentSeen | src/tools/lisp.c:323-357 | what an assignment sets, a later form sees, and the value of the last form is shown |
| LispExample.UndefinedName | src/tools/lisp.c:188 | a name without a value ends the script with the message for it |
| LispExample.NumberCalled | src/tools/lisp.c:284 | calling a number answers the error for what is no function |
| LispExample.ZeroDivision | src/tools/lisp.c:251-255 | the text of a division by zero ends the script with the message for it |
| LispExample.ReadingErrors | src/tools/lisp.c:325-330 | a stray closing parenthesis and a script that only opens lists end with their messages |
| LispExample.NameShown | src/tools/lisp.c:344-356 | a script that names a symbol, the empty list or a function shows it in the form each has |
| LispExample.NothingShown | src/tools/lisp.c:344-356 | a script without a form shows no result, the empty list shows as nil |
| LispExample.NumbersPrinted | src/tools/lisp.c:257-268 | printing puts out numbers in decimal, each with a blank behind it, and ends the line |
| LispExample.NamePrinted | src/tools/lisp.c:261-264 | a symbol is printed as its name |
| Editor.SplitBack | src/tools/editor.c:126 | cutting a text into lines loses nothing |
| Editor.SplitJoined | src/tools/editor.c:126 | the lines of two texts put together are those of each, with one line joined |
| Editor.LinesMean | src/tools/editor.c:126 | lines are what lies between the bytes 10 |
| Editor.ViewExact | src/tools/editor.c:14-18 | text and cursor can be told from lines, row and column |
| Editor.InsertSize | src/tools/editor.c:168-174 | typing makes the document one byte longer |
| Editor.BackspaceSize | src/tools/editor.c:159-167 | erasing makes the document one byte shorter, except at the very beginning |
| Editor.ColumnCounts | src/tools/editor.c:124-126 | from the start of a line the column counts characters, and at its end they have all been counted |
| Editor.InsertMeans | src/tools/editor.c:170-174 | splicing a character in at the cursor is typing it in the line editor; a newline breaks the line |
| Editor.BackspaceMeans | src/tools/editor.c:161-166 | closing the gap is erasing in the line editor; at the start of a line it joins two lines |
| Editor.InsertUndone | src/tools/editor.c:158-175 | erasing undoes typing |
| Editor.BackspaceUndone | src/tools/editor.c:158-175 | typing the erased character undoes erasing |
| Editor.UpMeans | src/tools/editor.c:123-137 | the position computed for the up key is one row up, with the column clipped to that line |
| Editor.DownMeans | src/tools/editor.c:138-152 | the position computed for the down key is one row down, with the column clipped to that line |
| Editor.StepMeans | src/tools/editor.c:119-122 | one position to the left or right is one step of the line editor, across line ends too |
| Editor.UpKey | src/tools/editor.c:123-137 | key 128 moves one row up, to the same column or the end of a shorter line, and changes nothing in the first row |
| Editor.DownKey | src/tools/editor.c:138-152 | key 129 moves one row down likewise |
| Editor.SideKeys | src/tools/editor.c:119-122 | keys 130 and 131 move one position back and on in the text, as far as it goes |
| Editor.TypedKeys | src/tools/editor.c:158-175 | in insert mode 32 to 126 and 10 go into the text at the cursor while there is room, 8 takes away the byte before it, other keys do nothing |
| Editor.ModeKeys | src/tools/editor.c:107-201 | 27 ends insert mode, 105 starts it, 119 leaves with the text and 113 without; none of them changes the text |
| Editor.TextEditor.constructor | src/tools/editor.c:81-103 | the buffer starts with the file and the cursor at its beginning, in normal mode |
| Editor.TextEditor.Column | src/tools/editor.c:124-126 | the backward scan finds the start of the line and the column |
| Editor.TextEditor.CursorUp | src/tools/editor.c:123-137 | the three scans move the view one row up |
| Editor.TextEditor.CursorDown | src/tools/editor.c:138-152 | the three scans move the view one row down |
| Editor.TextEditor.ShiftLeft | src/tools/editor.c:162-164 | everything from the cursor on moves one place to the left |
| Editor.TextEditor.ShiftRight | src/tools/editor.c:170-172 | everything from the cursor on moves one place to the right |
| Editor.TextEditor.EraseBefore | src/tools/editor.c:159-167 | shifting left in place is Backspace on the view |
| Editor.TextEditor.Insert | src/tools/editor.c:168-175 | shifting right in place is Insert on the view |
| Editor.TextEditor.Key | src/tools/editor.c:107-201 | every key does to the view what the line editor does, in both modes, and keeps 0 <= cursor <= length < capacity |
| Editor.PressKeeps | src/tools/editor.c:107-201 | no key breaks a document or overfills the buffer |
| Editor.PressAllKeeps | src/tools/editor.c:107-201 | no sequence of keys leaves a document with a newline inside a line, a cursor outside it, or a size beyond the buffer |
| Editor.Edit | src/tools/editor.c:74-202 | a whole session on a file is a session of the line editor; what is saved is the text |

## Left out

- Everything below the sector and the page frame: ATA commands, port input and output, `CR3`, the higher-half mapping of physical memory (frames are named by number), interrupts, the switch to ring 3 and back.
- `fat16_dir`, the shell, system call dispatch apart from the exit of a program, the drawing of the editor's screen: user interface and plumbing.
- `tarfs.c` (the boot archive that the loader falls back on: what its size query and read return are parameters of `Process.Exec`), `heap.c` (`kmalloc` on top of the page allocator, which nothing in the repository calls), `string.c` (of which `memset` and `memcpy` are modelled as `Vmm.Machine.ZeroFrame` and `Process.CopyIn`), `keyboard.c` (scan codes to characters: the editor's keys are a parameter of `Editor.Edit`).
- `pmm_init`: the allocator starts from a bitmap whose free pages and free memory agree, with page 0 taken.
- FAT16 preconditions (`Bpb.Sound`, `DirectoryOk`, `Owns`): 512-byte sectors, at least one sector per cluster, a whole number of directory sectors, a table large enough for the clusters, its second copy, if there is one, equal to the first (further copies are never looked at); entries after the first unused one are unused; live names are unique and no directory has the name of a file; sizes below 2^32. Subdirectories' contents and long names are not modelled: entries with a NUL byte in their name, which no query can match, are ignored.
- Fat16Driver.Driver.FreeChain: links may lead anywhere on the disk; links to sectors behind its end, for which the original asks the hardware all the same, are excluded (`SweepOnDisk`, and `ReadOnDisk` for reading). `LargeDiskSweeps` and `LargeDiskReads` say which disks have no such links.
- Fat16Run.Run: stops before the result of an overwrite that `Breaks` describes can be used, because what the driver does on an unsound volume is not modelled.
- A write of no bytes returns 0, which a caller cannot tell from failure; the model returns the same 0, and the map machine tells the two apart by whether there was room.
- Process.Exec: `vmm_map_page` does not check the allocator's answer when it needs a table, and would go on with physical page 0 as a table. The model ends such a run with the outcome `Starved`; when that happens is part of `Ends`, and fewer than three frames are then free.
- Process.Exec: a file that passes the checks of its header must be one whose loadable segments, up to the first that is refused, lie inside the file with what they have in it, and end below 2^47; the original takes both for granted. Arguments fit the stack page.
- Vmm.Machine.CheckUserPtr: tables outside physical memory are not modelled; the tables that `vmm_map_page` builds are inside (`TreeIn`).
- Pmm.Allocator.FindRun: the two scanning loops of `pmm_alloc_pages` are one method called twice; the count of one, which the original passes to `pmm_alloc_page`, does so here too.
- The disk, physical memory and the editor's saved bytes are sequences in fields rather than arrays; the bitmap, the read buffer and the editor's buffer are arrays.
- LispEval.Eval: nesting of user-function calls is bounded by a fuel, in place of the C stack; `MoreFuel` shows that the bound only matters when it runs out. More than sixteen arguments, a subtraction without arguments, a malformed definition or assignment, and int overflow end in `Fault`, because the original then does something undefined. Numerals that do not fit an int are read without wrapping.
- LispReader.Reader.Expr: nesting of parentheses is not bounded, and neither is memory: the 1 MB pool of the original is not modelled, for the interpreter and for the editor.
- LispRun.Interpreter.Run: the script is a parameter; reading it from a file is not modelled. A missing function body is the empty list, which evaluates the same.
