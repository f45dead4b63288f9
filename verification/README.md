# Verification of the TermOS kernel services

A Dafny model of five parts of the TermOS x86-64 kernel and of its 32-bit boot console, with proofs about
whole runs of them:

- the FAT32 layer (`fat32.cpp`): `mkdir`, `touch`, `rm`, `cd`, `ls`, `cat`, the cluster allocator, the path text;
- the round-robin scheduler (`task.cpp`);
- the VGA terminal with the line editor that echoes on it (`stdio.cpp`, `iostream.cpp`) and the keyboard ring
  (`idt.cpp`);
- the framebuffer console of the Rust loader (`drivers/src/lib.rs`), at 32 bits per pixel;
- the bitmap page allocator (`pmm.cpp`).

Each part has the same shape. A specification on values says what one operation does (`FatSpec`, `TaskSpec`,
`Teletype`, `KeyboardRing`, `CharacterGrid`, `PageAllocator`). A class with the source's own globals, buffers and
loops is proved, method by method, to do exactly that (`FatDriver`, `Tasks`, `Terminals`, `LineEditor`,
`KeyboardRing.Keyboard`, `Framebuffer`, `PageAllocator.Memory`). Lemmas about the specification then state what
holds over every run.

`dafny verify dfyconfig.toml` checks everything.

## The file system

The disk is an array of 512-byte sectors. `Sectors` gives the byte layout of directory entries and FAT cells, byte by
byte and with round trips in both directions; `FatBytes` says in bytes what `cd` reads and what `touch`, `rm` and
`mkdir` write, and the methods of `FatDriver` carry these statements for the disk; `FatGeometry` gives the sector of a cluster and proves that FAT sectors and the
first sectors of different clusters never coincide, so that one sector write is one change of the volume.

The invariant of a run is `FatPaths.WellFormed`. It says three things.

- `FatTree.Tree`: a *walk* follows a sequence of directory slots from the root; no cluster is reached by two
  different walks. So no directory is linked twice, none contains itself, and nothing links to the root.
- `FatTree.Sound`: every reached directory lies on the volume, has a nonzero FAT cell, has no live slot behind a
  slot that was never used, holds "." = itself and ".." = its container (0 for the root) in its first two slots
  unless it is the root, and the live entries in it name no free cluster.
- `FatPaths.PathAgrees`: the text of the current path is a canonical absolute path, and looking up its components
  one by one from cluster 2 leads exactly to the current cluster.

`FatPaths.RunKeepsWellFormed` proves it over every sequence of commands, `FatPaths.MkdirPrefixKeeps` after any
prefix of `mkdir`'s three sector writes. The driver records the volume after every sector write in `history`, and
`FatDriver.FileSystem.Mkdir` proves that these are the states that the lemma speaks of.

Results where the code does not do what its comments or documentation suggest:

- `cd ..` in a child of the root stays there (`UpLaw`, `EnterThenUp`): `mkdir` stores 0 for the root, and `cd`
  reads 0 as "no parent"; `UpFailsBelowRoot` is a run that shows it. It leads back exactly when the container is not
  the root. The branch of `fat32.cpp:255-256` that the comment describes as staying in the root is never taken in a
  well-formed state (`UpNeverCutsTheRoot`).
- A name that no entry answered to before is found after a complete `mkdir`, or a `touch` with a free slot, exactly
  when its stored part holds no line break and it does not start with byte 0xE5 (`MkdirThenFind`, `TouchThenFind`): the
  loops that write a name stop only at a dot, the loop that compares one also at line breaks. `LineFeedTwice` gives the
  name that `mkdir` stores twice.
- `touch` does not look for the name first. For a name of the kind above it makes a duplicate exactly when a lookup
  finds the name (`TouchKeepsUnique`), and the lookup then gives the new file exactly when the free slot lies before
  the old entry (`TouchThenFind`); if the old entry was a directory, `cd` cannot enter it any more (`TouchThenCd`, and
  the run `DirectoryHidden`).
- A name is gone after `rm` exactly when no later live slot matches it (`RmThenFind`), so after two touches it is
  still there (`RemovedButFound`). Over a run, names stay unique in the whole tree exactly when no command stores a
  duplicate, which is so if `mkdir` and `touch` get names without line breaks and `touch` only absent ones
  (`RunKeepsUnique`).
- `pmm_init` marks every page used, but for those of a last partial byte (`FirstAfterInit`), and reports all memory
  free; on whole bytes the counter stays that much too high for ever (`InitialLaw`). `alloc_page` returns 0 also when it has just taken page 0 (`NullLaw`).
- A character from 0x80 on loses its colour on the VGA screen to sign extension (`ColorLaw`).

Preconditions the code needs: the root is cluster 2; the FAT has at least the 100 sectors that the allocator scans,
and every cluster it can hand out has a data sector; sector addresses are below 2^28; on its way `cd` meets only
components and paths below 256 characters and clusters of the volume (`CdFits`; in a well-formed state
`ShortArgumentFits` and `ShortRunFits` give checks on lengths alone). No command requires a well-formed state.

## The other parts

- Scheduler: `Tasks.Tasking.Valid` says that the next pointers of the used pool slots form one circle, in the order
  of the ring of `TaskSpec`, that pids are distinct and that each created task owns its own stack. `BoundedWaiting`
  gives 15 calls as the longest wait, and `WorstCase` a state, reached by 15 creations, where a task waits that long.
  `StopsForGood` says that a task that blocks, exits or is killed does not get the turn again without an unblock, and
  `UnblockedReturns` that an unblock brings it back.
- Terminal: the screen is the last 25 rows of an endless sheet. `ViewSuffices` and `TypedKeepsAbove` say that rows
  that left the screen are neither needed nor changed. `EchoSpells` and `ShortLineSpells` join the line editor to it.
- Keyboard: `Linearizable` compares the ring, with key presses at any point between the three steps of a pop, with a
  sequential queue of capacity 255; `RingConserves` says that nothing is lost, duplicated, reordered or invented.
- Framebuffer: `FramebufferConsole.Valid` says that every pixel of the screen is the one of the rendered character
  grid; `RenderScrolled` is why the copy by 16 rows shows the grid scrolled by one, whatever the height.
  `LineFeedsLaw` and `WriteWraps` give every cell after line feeds and after text, `TextPixels` every pixel.
- Page allocator: `RunSurplus`, `HeldStaysHeld` and `AllocatesOnlyFreed` hold over every run; `ClearLaw` says exactly
  which pages are clear after one.

## Model

| member | source | states |
|---|---|---|
| Sectors.DecodeOfEncode | arch/x86/kernel/include/fat32.hpp:42-55 | an entry stored in its 32 bytes reads back as the same entry, every field |
| Sectors.EncodeOfDecode | arch/x86/kernel/include/fat32.hpp:42-55 | an entry read and stored again leaves the 32 bytes as they were |
| Sectors.DecodedBytes | arch/x86/kernel/include/fat32.hpp:42-55 | the field that each byte of an entry belongs to: name 0-10, attributes 11, high cluster word 20-21, low 26-27, size 28-31, lowest byte first |
| Sectors.EncodedBytes | arch/x86/kernel/include/fat32.hpp:42-55 | the 32 bytes that storing an entry writes, one by one |
| Sectors.EntryBytes | arch/x86/kernel/include/fat32.hpp:42-55 | the fields of the entry in slot i from the bytes at 32 i of the sector |
| Sectors.SetEntryDir | arch/x86/kernel/src/fat32.cpp:189-207 | writing one entry of a sector buffer changes that slot and no other of the 16 |
| Sectors.SetCellAt | arch/x86/kernel/src/fat32.cpp:361-369 | writing one FAT cell of a buffer changes that cell and no other of the 128 |
| Sectors.CellBytes | arch/x86/kernel/src/fat32.cpp:361-369 | a FAT cell is the four bytes at 4 j, the lowest first |
| Sectors.SetCellBytes | arch/x86/kernel/src/fat32.cpp:361-369 | the four bytes that storing a cell writes; the other 508 stay |
| FatNames.NameMatch | arch/x86/kernel/src/fat32.cpp:100-113 | a name matches an entry exactly when each of its first 8 bytes is that of the name, a to z as A to Z, cut at dot or line break and padded with spaces |
| FatNames.WriteName | arch/x86/kernel/src/fat32.cpp:192-198 | the loops of mkdir and touch store up to eight characters before the first dot, a to z as A to Z, then spaces; given byte by byte |
| FatNames.StoredBytes | arch/x86/kernel/src/fat32.cpp:192-198 | the eleven bytes stored for a name, in numbers |
| FatNames.MatchingBytes | arch/x86/kernel/src/fat32.cpp:100-113 | the eight bytes a name is compared with, in numbers |
| FatNames.CaseIgnored | arch/x86/kernel/src/fat32.cpp:100-113 | names that differ only in the case of letters are stored alike and compared alike |
| FatNames.StoredNameMatches | arch/x86/kernel/src/fat32.cpp:100-113 | round trip: a name matches the field just written for it if and only if its stored part has no line break |
| FatNames.NeverMatches | arch/x86/kernel/src/fat32.cpp:100-113 | no name matches an entry that starts with a dot or was never used, so rm cannot remove "." or ".." |
| FatNames.MatchesDeleted | arch/x86/kernel/src/fat32.cpp:306-307 | only a name that starts with 0xE5 can match a deleted slot |
| FatNames.StoredNameLive | arch/x86/kernel/src/fat32.cpp:192-198 | a stored entry is live if and only if the name does not start with 0xE5, and never looks like a dot entry |
| FatSpec.FindSlotLeast | arch/x86/kernel/src/fat32.cpp:86-96 | a lookup selects the first live slot whose name matches |
| FatSpec.MatchSlotLeast | arch/x86/kernel/src/fat32.cpp:305-307 | rm and cat select the first matching slot, live or not |
| FatSpec.FreeSlot | arch/x86/kernel/src/fat32.cpp:190-191 | mkdir and touch fill the first slot that is not live |
| FatSpec.FreeCluster | arch/x86/kernel/src/fat32.cpp:347-359 | the allocator returns the least zero cell from 2 on among the first 12800, and 0 if and only if there is none |
| FatSpec.ComponentLength | arch/x86/kernel/src/fat32.cpp:237-241 | a component ends at the first slash or at the end of the argument |
| FatSpec.LastSlash | arch/x86/kernel/src/fat32.cpp:252-254 | the backward scan stops at the last slash, or before the start if there is none |
| FatScans.ScanLive | arch/x86/kernel/src/fat32.cpp:86-97 | the loop of find_file computes the slot of the lookup |
| FatScans.ScanMatch | arch/x86/kernel/src/fat32.cpp:305-311 | the loop of rm and cat computes the matching slot |
| FatScans.ScanFree | arch/x86/kernel/src/fat32.cpp:326-327 | the loop of mkdir and touch computes the free slot |
| FatScans.ScanListing | arch/x86/kernel/src/fat32.cpp:66-76 | the loop of ls prints the entries before the first unused slot that are not deleted |
| FatScans.ScanCells | arch/x86/kernel/src/fat32.cpp:351-356 | the inner loop of the allocator finds the first zero cell of its buffer that stands for a cluster from 2 on |
| FatGeometry.SectorOnDisk | arch/x86/kernel/src/fat32.cpp:316-318 | for a cluster of the volume the 32-bit formula does not wrap and the sector is on the disk |
| FatGeometry.SectorsApart | arch/x86/kernel/src/fat32.cpp:316-318 | sectors of different clusters differ, and all lie behind the FAT |
| FatGeometry.CellWrite | arch/x86/kernel/src/fat32.cpp:361-369 | a FAT write changes one cell of the volume, no other cell and no directory |
| FatGeometry.DirectoryWrite | arch/x86/kernel/src/fat32.cpp:184-207 | a directory write changes one directory of the volume, no other and no FAT cell |
| FatTree.LinksDistinct | arch/x86/kernel/src/fat32.cpp:143-213 | in a tree volume two links lead to different clusters, none to the root, and each target is allocated with "." itself and ".." its container |
| FatTree.FreshCluster | arch/x86/kernel/src/fat32.cpp:157-163 | the cluster handed out is not part of the tree |
| FatTree.ClaimedTree | arch/x86/kernel/src/fat32.cpp:163 | after mkdir's FAT write the volume is a tree volume with the same walks and directories |
| FatTree.FilledTree | arch/x86/kernel/src/fat32.cpp:165-187 | so it is after the write of the new directory |
| FatTree.ChildIsSound | arch/x86/kernel/src/fat32.cpp:165-182 | the new sector has correct dot entries for its container, a zero tail and nothing else |
| FatTree.LinkedGrows | arch/x86/kernel/src/fat32.cpp:189-211 | after the third write the walks are the old ones and those to the new cluster through the filled slot of the parent |
| FatTree.LinkedHidden | arch/x86/kernel/src/fat32.cpp:191-207 | with a name that starts with 0xE5 the third write adds no walk and breaks nothing |
| FatTree.MkdirPrefixKeepsTree | arch/x86/kernel/src/fat32.cpp:143-213 | after every prefix of mkdir's writes the volume is a tree volume; only the complete mkdir changes a directory of the old tree, the current one |
| FatTree.TouchKeepsTree | arch/x86/kernel/src/fat32.cpp:320-345 | touch keeps the tree volume |
| FatTree.RmKeepsTree | arch/x86/kernel/src/fat32.cpp:299-314 | rm keeps the tree volume, also when it removes a directory with contents |
| FatPaths.ComponentsOfJoin | arch/x86/kernel/src/fat32.cpp:231-243 | splitting a path into components undoes joining them |
| FatPaths.PushOfJoin | arch/x86/kernel/src/fat32.cpp:290-293 | entering a directory appends its name to the canonical path |
| FatPaths.PopOfJoin | arch/x86/kernel/src/fat32.cpp:250-259 | the cut at the last slash drops the last component |
| FatPaths.ResolveFrame | arch/x86/kernel/src/fat32.cpp:216-295 | changing no directory of the tree but the last one of a path does not change what the path resolves to |
| FatPaths.ParentLaw | arch/x86/kernel/src/fat32.cpp:371-385 | get_parent_cluster of a resolved path gives the cluster one component shorter, and 0 for the root and its children |
| FatPaths.UpLaw | arch/x86/kernel/src/fat32.cpp:245-262 | exact law of "..": nothing changes at depth 0 and 1, elsewhere cluster and path lose exactly the last component |
| FatPaths.UpNeverCutsTheRoot | arch/x86/kernel/src/fat32.cpp:252-258 | whenever ".." changes a well-formed state, the last slash of the path is not the first character, so the branch for index 0 is not taken |
| FatPaths.EnterLaw | arch/x86/kernel/src/fat32.cpp:269-293 | entering a name succeeds exactly when the longer path resolves to a directory, and gives its cluster and text |
| FatPaths.EnterThenUp | arch/x86/kernel/src/fat32.cpp:245-293 | entering a child and ".." leads back to the same state if and only if the start was not the root; from the root it stays in the child |
| FatPaths.CdKeeps | arch/x86/kernel/src/fat32.cpp:216-295 | cd with any argument keeps the invariant and changes nothing on the volume |
| FatPaths.CdComposes | arch/x86/kernel/src/fat32.cpp:230-294 | cd of "a/b" is cd of a followed by cd of b, and a failure anywhere restores the whole state |
| FatPaths.CdIgnores | arch/x86/kernel/src/fat32.cpp:231-267 | a repeated slash or a "." component changes nothing |
| FatPaths.CdAbsolute | arch/x86/kernel/src/fat32.cpp:222-228 | an absolute argument gives a result that does not depend on the starting directory |
| FatPaths.CdFoldResolves | arch/x86/kernel/src/fat32.cpp:269-293 | a list of plain components leads to what the lengthened path resolves to, or fails if it does not resolve |
| FatPaths.CdToPath | arch/x86/kernel/src/fat32.cpp:216-295 | cd to the text of the current path gives exactly the current state, from any directory |
| FatPaths.MkdirPrefixKeeps | arch/x86/kernel/src/fat32.cpp:143-213 | an interrupted mkdir leaves a well-formed state, with the path still naming the current directory, and a restart in the root is well formed too |
| FatPaths.StepKeeps | arch/x86/kernel/src/fat32.cpp:143-345 | every command keeps the invariant |
| FatPaths.RunKeepsWellFormed | arch/x86/kernel/src/fat32.cpp:143-385 | over every run of mkdir, touch, rm and cd the invariant holds and the current directory is reached from the root |
| FatPaths.FreshVolumeWellFormed | arch/x86/kernel/src/fat32.cpp:43-46 | a volume whose root was never written is a well-formed start |
| FatLaws.ListingAgrees | arch/x86/kernel/src/fat32.cpp:66-98 | ls prints every live entry if and only if no live slot follows an unused one, and then a lookup gives the first printed entry that matches |
| FatLaws.RunListingsAgree | arch/x86/kernel/src/fat32.cpp:58-98 | over every run, in every directory of the tree, ls prints exactly the live entries and a lookup gives the first of them that matches |
| FatLaws.MatchSlotAgrees | arch/x86/kernel/src/fat32.cpp:86-137 | rm and cat select the slot of the lookup for names not starting with 0xE5; with such a name nothing is found and rm changes nothing |
| FatLaws.MkdirFrame | arch/x86/kernel/src/fat32.cpp:143-213 | a complete mkdir changes one slot of the parent, the new directory and one FAT cell, and nothing else |
| FatLaws.MkdirThenFind | arch/x86/kernel/src/fat32.cpp:143-213 | for every name and outcome of mkdir: a lookup gives the new cluster if and only if mkdir linked it and the name is storable, and what it gave before otherwise; lookups with other search keys are unchanged |
| FatLaws.TouchThenFind | arch/x86/kernel/src/fat32.cpp:320-345 | for every name, present or not: a lookup gives the new empty file if and only if the name is storable and the first free slot lies before the entry found so far, and what it gave before otherwise; other lookups, directories and the FAT are unchanged |
| FatLaws.FindAfterTouch | arch/x86/kernel/src/fat32.cpp:320-345 | the same within one directory |
| FatLaws.CaseFinds | arch/x86/kernel/src/fat32.cpp:86-113 | names that differ only in case get the same lookup, and the same directory after touch and rm |
| FatLaws.TouchThenFindCase | arch/x86/kernel/src/fat32.cpp:320-345 | after touch of an absent storable name every case variant of it leads to the new file, with attributes 0x20, no cluster and no size |
| FatLaws.MkdirThenFindCase | arch/x86/kernel/src/fat32.cpp:143-213 | after a complete mkdir of a storable name every case variant of it leads to the new directory |
| FatLaws.TouchThenCd | arch/x86/kernel/src/fat32.cpp:269-345 | a name that cd could enter cannot be entered after touch of it if and only if it is storable and a slot before its entry was free |
| FatLaws.MkdirThenCd | arch/x86/kernel/src/fat32.cpp:143-295 | in every well-formed state a complete mkdir of a proper, storable name and cd to it enter the new cluster under the longer path |
| FatLaws.UpFailsBelowRoot | arch/x86/kernel/src/fat32.cpp:176-248 | on a fresh volume, mkdir and cd of one name and then "cd .." stays in the new directory |
| FatLaws.MkdirKeepsUnique | arch/x86/kernel/src/fat32.cpp:143-207 | names stay unique over mkdir if and only if the stored name was not there, which holds for every name without line breaks |
| FatLaws.TouchKeepsUnique | arch/x86/kernel/src/fat32.cpp:320-345 | names stay unique over touch if and only if the stored name was not there or is hidden; for a storable name, if and only if a lookup did not find it |
| FatLaws.TakenIsFound | arch/x86/kernel/src/fat32.cpp:100-113 | for a name without line breaks its stored form is in the directory if and only if a lookup finds it |
| FatLaws.LineFeedTwice | arch/x86/kernel/src/fat32.cpp:143-207 | mkdir of a lone line feed twice stores the same name twice |
| FatLaws.RmThenFind | arch/x86/kernel/src/fat32.cpp:299-314 | a removed name is not found any more if and only if no later live slot matches it, which holds when names are unique |
| FatLaws.RmThenFindOther | arch/x86/kernel/src/fat32.cpp:299-314 | rm does not change lookups with another search key, unique names or not |
| FatDuplicates.TouchTwice | arch/x86/kernel/src/fat32.cpp:299-345 | two touches of an absent storable name leave it twice, and after rm it is still found |
| FatDuplicates.RemovedButFound | arch/x86/kernel/src/fat32.cpp:299-345 | the run on a fresh volume: touch A, touch A, rm A leaves A to be found |
| FatDuplicates.DirectoryHidden | arch/x86/kernel/src/fat32.cpp:143-345 | the run on a fresh volume: after touch B, mkdir A, rm B the directory A can be entered, after touch A it cannot |
| FatDuplicates.StepUnique | arch/x86/kernel/src/fat32.cpp:143-345 | names stay unique in the whole tree over one command if and only if it does not store a name that its directory holds |
| FatDuplicates.CarefulIsEnough | arch/x86/kernel/src/fat32.cpp:143-345 | names without line breaks, and for touch absent, are never stored twice |
| FatDuplicates.RunKeepsUnique | arch/x86/kernel/src/fat32.cpp:143-345 | over every run names are unique all along if and only if no command stores a duplicate, so they are if every command is careful |
| FatDuplicates.FreshUnique | arch/x86/kernel/src/fat32.cpp:43-46 | a volume whose root was never written is a start with unique names |
| FatLaws.AllocationLaw | arch/x86/kernel/src/fat32.cpp:157-163 | over every run the clusters handed out strictly increase, no cell is cleared, and the zero cells lost are exactly the clusters handed out, full parent or not |
| FatLaws.RunKeepsSectors | arch/x86/kernel/src/fat32.cpp:143-345 | over every run the sector of a cluster in use is written only while it is the current directory |
| FatBytes.FindBytes | arch/x86/kernel/src/fat32.cpp:79-98 | a name is not found exactly when no slot of the sector whose first byte is neither 0 nor 0xE5 holds its eight bytes |
| FatBytes.EnterBytes | arch/x86/kernel/src/fat32.cpp:270-287 | the cluster entered is bytes 26, 27, 20, 21 of the first such slot, if bit 4 of its byte 11 is set |
| FatBytes.UpBytes | arch/x86/kernel/src/fat32.cpp:371-385 | get_parent_cluster gives those bytes of the second slot, and 0 for cluster 2 or without a dot in byte 32 |
| FatBytes.CdStepBytes | arch/x86/kernel/src/fat32.cpp:245-293 | one component of cd, ".", ".." or a name, from the bytes of the current sector |
| FatBytes.TouchWrites | arch/x86/kernel/src/fat32.cpp:320-345 | touch changes the 32 bytes of the first free slot: name, 0x20, zeros for cluster and size; without one nothing |
| FatBytes.LinkWrites | arch/x86/kernel/src/fat32.cpp:189-207 | the link of mkdir changes those bytes: name, 0x10, the cluster in bytes 26, 27, 20, 21, zeros for the size |
| FatBytes.RmWrites | arch/x86/kernel/src/fat32.cpp:299-314 | rm changes one byte: the first of the first slot named like the argument becomes 0xE5 |
| FatBytes.ChildWrites | arch/x86/kernel/src/fat32.cpp:165-182 | all 512 bytes of a new directory |
| FatBytes.TouchOnDisk | arch/x86/kernel/src/fat32.cpp:320-345 | the same for touch in the sector of the current directory on the disk |
| FatBytes.RmOnDisk | arch/x86/kernel/src/fat32.cpp:299-314 | and for rm |
| FatBytes.MkdirOnDisk | arch/x86/kernel/src/fat32.cpp:143-213 | a mkdir of an absent name writes FF FF FF 0F into the FAT, the new directory into its sector and the link into the parent; the bytes of all three sectors |
| FatDriver.ShortArgumentFits | arch/x86/kernel/src/fat32.cpp:230-294 | in a well-formed state, path, argument and one slash below 256 characters keep every buffer and cluster of cd in bounds |
| FatDriver.ShortRunFits | arch/x86/kernel/src/fat32.cpp:216-295 | in a run from a well-formed state, the path and all arguments of cd with a slash each below 256 characters keep every cd in bounds |
| FatDriver.FileSystem.constructor | arch/x86/kernel/src/fat32.cpp:31-46 | the layout from the BPB, the root as current directory, "/" as path |
| FatDriver.FileSystem.Ls | arch/x86/kernel/src/fat32.cpp:58-77 | prints the listing of the current directory |
| FatDriver.FileSystem.FindFile | arch/x86/kernel/src/fat32.cpp:79-98 | gives the entry of the lookup in the current directory |
| FatDriver.FileSystem.Cat | arch/x86/kernel/src/fat32.cpp:116-141 | prints the first bytes of the sector of the matching entry's cluster, as many as the file has |
| FatDriver.FileSystem.FindFreeCluster | arch/x86/kernel/src/fat32.cpp:347-359 | the nested scan over sectors on disk computes the least free cluster of the volume |
| FatDriver.FileSystem.UpdateFat | arch/x86/kernel/src/fat32.cpp:361-369 | read, change, write back: one cell of the volume and the four bytes of one sector change, the lowest first |
| FatDriver.FileSystem.DotEntries | arch/x86/kernel/src/fat32.cpp:165-182 | the zeroed buffer with its two entries is the new directory |
| FatDriver.FileSystem.WriteChild | arch/x86/kernel/src/fat32.cpp:163-187 | the first two writes of mkdir, and the volumes after each |
| FatDriver.FileSystem.StoreLink | arch/x86/kernel/src/fat32.cpp:192-207 | the third write: the parent buffer read earlier with one entry replaced |
| FatDriver.FileSystem.Mkdir | arch/x86/kernel/src/fat32.cpp:143-213 | on sectors, does the mkdir of the specification; the volumes after its writes are the stages in order; the bytes of the three sectors it writes, and no other sector changes |
| FatDriver.FileSystem.Touch | arch/x86/kernel/src/fat32.cpp:320-345 | on sectors, does the touch of the specification with at most one write; the bytes of that sector, and no other changes |
| FatDriver.FileSystem.Rm | arch/x86/kernel/src/fat32.cpp:299-314 | on sectors, does the rm of the specification with at most one write; the byte of that sector, and no other changes |
| FatDriver.FileSystem.GetParentCluster | arch/x86/kernel/src/fat32.cpp:371-385 | reads the container from the second slot, 0 for the root or without a dot entry |
| FatDriver.FileSystem.PopPath | arch/x86/kernel/src/fat32.cpp:250-259 | the cut in the path buffer never runs past its start and leaves the path without its last component |
| FatDriver.FileSystem.PushPath | arch/x86/kernel/src/fat32.cpp:290-293 | the two strcat calls leave the lengthened path in the buffer |
| FatDriver.FileSystem.SkipSlashes | arch/x86/kernel/src/fat32.cpp:233-234 | skipping slashes does not change the components that follow |
| FatDriver.FileSystem.CopyComponent | arch/x86/kernel/src/fat32.cpp:237-243 | copies exactly the first component, terminated, without leaving its buffer |
| FatDriver.FileSystem.GoUp | arch/x86/kernel/src/fat32.cpp:246-261 | the ".." branch does the step of the specification |
| FatDriver.FileSystem.EnterComponent | arch/x86/kernel/src/fat32.cpp:270-293 | the lookup branch does the step of the specification, or fails without a change |
| FatDriver.FileSystem.StepComponent | arch/x86/kernel/src/fat32.cpp:245-293 | one component of cd, told apart with strcmp, does the step of the specification or fails without a change |
| FatDriver.FileSystem.FollowPath | arch/x86/kernel/src/fat32.cpp:230-294 | the loop over the components does the fold of the specification and stops at the first failure |
| FatDriver.FileSystem.Cd | arch/x86/kernel/src/fat32.cpp:216-295 | the walk over the argument with its buffers does the cd of the specification, with roll-back on failure |
| FatDriver.FileSystem.Execute | arch/x86/kernel/src/tsh.cpp:66-73 | each of the four commands, on sectors, does the step of the specification, and keeps a well-formed state well formed |
| FatDriver.FileSystem.ExecuteAll | arch/x86/kernel/src/tsh.cpp:66-73 | a sequence of commands, on sectors, ends in the state of the run of the specification, and no sector outside the FAT and the directories changes |
| CStrings.Strlen | arch/x86/kernel/include/string.hpp:14-18 | counts the characters before the terminator |
| CStrings.Strcmp | arch/x86/kernel/include/string.hpp:7-12 | the difference of the first characters in which the strings differ; 0 if and only if they are equal |
| CStrings.CompareLaws | arch/x86/kernel/include/string.hpp:7-12 | that difference is 0 exactly for equal strings and changes its sign when the strings change places |
| CStrings.CompareAt | arch/x86/kernel/include/string.hpp:7-12 | after an equal beginning it is the difference of the next two characters, with 0 for the end |
| CStrings.Strcpy | arch/x86/kernel/include/string.hpp:27-29 | leaves a terminated copy in the destination |
| CStrings.Strcat | arch/x86/kernel/include/string.hpp:39-56 | leaves the destination's string followed by the source's, terminated |
| TaskSpec.ChoiceInRing | arch/x86/kernel/src/task.cpp:107-120 | schedule picks the first running task after the current one and stays if and only if no other task is running |
| TaskSpec.ApplyKeepsValid | arch/x86/kernel/src/task.cpp:44-138 | every operation keeps all used slots on one ring, each once, with the kernel task first |
| TaskSpec.OneStep | arch/x86/kernel/src/task.cpp:44-138 | the state of every slot, the size of the ring and the stacks used after each operation: blocked, zombie, running or unchanged |
| TaskSpec.TurnToRunning | arch/x86/kernel/src/task.cpp:107-138 | the turn goes to a running task or stays; it stays if and only if no other task is running |
| TaskSpec.StoppedStays | arch/x86/kernel/src/task.cpp:107-138 | over every run without an unblock for it, a task that is not running stays so, and once it is not current it never is again |
| TaskSpec.StopsForGood | arch/x86/kernel/src/task.cpp:44-138 | so it is after block_current, exit_current and kill_task; with another task running the caller of the first two loses the turn at once |
| TaskSpec.UnblockedReturns | arch/x86/kernel/src/task.cpp:131-133 | after unblock the task becomes current within 15 calls of schedule, unless it is killed |
| TaskSpec.NewestNext | arch/x86/kernel/src/task.cpp:98-116 | a new task is the next after the kernel task |
| TaskSpec.ScheduleNears | arch/x86/kernel/src/task.cpp:107-120 | a call of schedule brings a waiting running task at least one step nearer |
| TaskSpec.CreateMeasure | arch/x86/kernel/src/task.cpp:101-102 | a creation adds at most one step to the wait and uses up a free slot for it |
| TaskSpec.BoundedWaiting | arch/x86/kernel/src/task.cpp:44-138 | under any interleaving of operations a running task that nobody kills becomes current within 15 calls of schedule |
| TaskSpec.RoundRobin | arch/x86/kernel/src/task.cpp:107-120 | with a ring of running tasks the turn goes slot by slot, and the slot k places ahead does not get it before the k-th call |
| TaskSpec.CreatedRuns | arch/x86/kernel/src/task.cpp:61-105 | k creations from the start, k up to 15, give a ring of k + 1 running tasks |
| TaskSpec.WorstCase | arch/x86/kernel/src/task.cpp:61-120 | after 15 creations the last task of the ring is running and becomes current at the 15th call of schedule and not earlier |
| Tasks.Tasking.constructor | arch/x86/kernel/src/task.cpp:48-59 | init leaves the kernel task alone in its circle, running and current |
| Tasks.Tasking.CreateTask | arch/x86/kernel/src/task.cpp:61-105 | links a new task behind the head, with the next pid and an initial frame on a stack of its own; fails after 15 creations and then still uses up a stack; no other stack changes |
| Tasks.Tasking.BuildFrame | arch/x86/kernel/src/task.cpp:65-90 | the twenty pushed words, one by one: ss 0x10, the top of the stack, rflags 0x202, cs 8, the entry, fifteen zeros; no other word changes |
| Tasks.Tasking.AddTask | arch/x86/kernel/src/task.cpp:92-104 | the first unused pool slot gets the next pid and its stack, and joins the circle |
| Tasks.Tasking.Join | arch/x86/kernel/src/task.cpp:101-102 | the new task takes its place behind the head of the circle, and the counters move on |
| Tasks.Tasking.Splice | arch/x86/kernel/src/task.cpp:101-102 | the two pointer assignments turn the circle into the circle with the task behind the head |
| Tasks.Tasking.Schedule | arch/x86/kernel/src/task.cpp:107-118 | the pointer walk ends and makes the choice of the specification current |
| Tasks.Tasking.BlockCurrent | arch/x86/kernel/src/task.cpp:126-129 | the current task becomes BLOCKED, no other state changes, and schedule follows |
| Tasks.Tasking.ExitCurrent | arch/x86/kernel/src/task.cpp:135-138 | the current task becomes a zombie, no other state changes, and schedule follows |
| Tasks.Tasking.Unblock | arch/x86/kernel/src/task.cpp:131-133 | the task becomes RUNNING and no other state changes |
| Tasks.Tasking.KillTask | arch/x86/kernel/src/task.cpp:44-46 | the task becomes a zombie and no other state changes; null is ignored |
| Teletype.TypedKeepsAbove | arch/x86/kernel/src/stdio.cpp:31-70 | over every string, rows that have left the screen stay as they were |
| Teletype.TypedSpells | arch/x86/kernel/src/stdio.cpp:46-70 | over every string without controls, the characters stand one after the other from the cursor on, across wraps and scrolls |
| Teletype.PutViewAll | arch/x86/kernel/src/stdio.cpp:31-70 | cell by cell, the screen and the cursor after a character in terms of the screen before |
| Teletype.ViewSuffices | arch/x86/kernel/src/stdio.cpp:58-68 | rows scrolled off are never needed again: the view after any string depends only on the present one |
| Teletype.ColorLaw | arch/x86/kernel/src/stdio.cpp:47 | a cell always holds the character; it holds the colour exactly for ASCII or if the colour is 0xFF; otherwise 0xFF stands there |
| Terminals.Terminal.PutChar | arch/x86/kernel/src/stdio.cpp:31-70 | video memory stays the last 25 rows of the sheet, with the cursor inside the screen |
| Terminals.Terminal.EraseBefore | arch/x86/kernel/src/stdio.cpp:31-70 | the backspace branch does the backspace of the sheet |
| Terminals.Terminal.constructor | arch/x86/kernel/src/stdio.cpp:6-13 | white on black, all 2000 cells 0x0F20, the cursor at the top left |
| Terminals.Terminal.ScrollUp | arch/x86/kernel/src/stdio.cpp:60-66 | the copy in place moves every row up by one and blanks the last |
| Terminals.Terminal.Clear | arch/x86/kernel/src/stdio.cpp:21-29 | all 2000 cells become spaces in the current colour, and the cursor goes to the top left |
| Terminals.Terminal.SetColor | arch/x86/kernel/src/stdio.cpp:15-19 | changes the colour of what is written from then on and no cell |
| Terminals.Terminal.Print | arch/x86/kernel/src/stdio.cpp:92-96 | the sheet after a string, character by character |
| LineEditor.ReducedCancels | arch/x86/kernel/src/iostream.cpp:89-93 | a character and the backspace after it might as well not have been typed, anywhere in the input |
| LineEditor.ReducedPlain | arch/x86/kernel/src/iostream.cpp:94-97 | without backspaces the buffer is what was typed |
| LineEditor.ReducedLeading | arch/x86/kernel/src/iostream.cpp:89-93 | a backspace with nothing before it might as well not have been typed |
| LineEditor.EchoSpells | arch/x86/kernel/src/iostream.cpp:78-100 | if the start of the line is on the screen at the end, the cells from it to the cursor spell the buffer, across wraps and scrolls, and nothing before it changes |
| LineEditor.ShortLineSpells | arch/x86/kernel/src/iostream.cpp:78-100 | a buffer of at most 24 rows never pushes its start off the screen, so the screen always spells it |
| LineEditor.ReadLine | arch/x86/kernel/src/iostream.cpp:78-100 | up to Enter, the buffer holds the backspace reduction of the keys, terminated, and the terminal shows the echo |
| LineEditor.EditKey | arch/x86/kernel/src/iostream.cpp:89-97 | one key other than Enter, in the buffer and on the terminal together |
| KeyboardRing.PushContents | arch/x86/kernel/src/idt.cpp:108-114 | a push appends to the waiting characters, or drops the new one if and only if 255 wait |
| KeyboardRing.Linearizable | arch/x86/kernel/src/idt.cpp:108-121 | with presses between any steps of a pop, every history gives the outputs and the queue of a sequential queue of capacity 255 |
| KeyboardRing.RingConserves | arch/x86/kernel/src/idt.cpp:108-121 | from an empty ring, the characters stored are those returned, in order, followed by those waiting |
| KeyboardRing.TailContents | arch/x86/kernel/src/idt.cpp:118-119 | the character at the tail is the oldest, and moving the tail removes it alone |
| KeyboardRing.Keyboard.KbdPush | arch/x86/kernel/src/idt.cpp:108-114 | does the push of the specification on the static ring |
| KeyboardRing.Keyboard.KbdPop | arch/x86/kernel/src/idt.cpp:116-121 | without interruption, removes and returns the oldest character, or returns 0 from an empty ring |
| KeyboardRing.Keyboard.PopStep | arch/x86/kernel/src/idt.cpp:116-121 | each of the three steps of a pop does the step of the interleaved machine |
| Numbers.PrintedParses | arch/x86/kernel/src/iostream.cpp:19-35 | the digits printed read back as the number, in every base from 2 to 16 |
| Numbers.PrintedDigits | arch/x86/kernel/src/iostream.cpp:19-35 | the digits printed are never none, all of the base, with no leading zero but for 0, and those of ASCII |
| Numbers.AtMost64 | arch/x86/kernel/src/iostream.cpp:22-29 | a 64-bit number has at most 64 digits, so the 65-byte buffer suffices |
| Numbers.FillDigits | arch/x86/kernel/src/iostream.cpp:22-29 | the division loop fills the buffer with the digits from the lowest on and stays within it |
| Numbers.PrintUint | arch/x86/kernel/src/iostream.cpp:19-35 | the division loop and the reversed output print exactly those digits |
| Numbers.PrintInt | arch/x86/kernel/src/iostream.cpp:58-61 | prints the string that reads back as the number; the smallest int excluded |
| Numbers.PrintedIntParses | arch/x86/kernel/src/iostream.cpp:58-61 | what a signed number prints as reads back as the number, sign and all |
| CharacterGrid.RenderSetCell | arch/x86/rust/drivers/src/lib.rs:96-110 | changing a character cell changes exactly the pixels of its 8 by 16 box, to those of the font |
| CharacterGrid.RenderScrolled | arch/x86/rust/drivers/src/lib.rs:124-149 | scrolling the grid by one row is moving the picture up by 16 pixels with background below, for every screen height |
| CharacterGrid.CursorInside | arch/x86/rust/drivers/src/lib.rs:157-172 | the cursor stays where 8 more columns and 16 more rows are inside the screen |
| CharacterGrid.WritePlain | arch/x86/rust/drivers/src/lib.rs:162-175 | plain characters within a row stand one after the other from the cursor on, and no other cell changes |
| CharacterGrid.LineFeedsLaw | arch/x86/rust/drivers/src/lib.rs:151-166 | k line feeds from any row: the cursor is k rows lower, at most on the last, in column 0; the cells it left are blank, and the grid moves up by what is missing; every cell is given |
| CharacterGrid.LineFeedsClear | arch/x86/rust/drivers/src/lib.rs:151-160 | enough line feeds leave a blank screen |
| CharacterGrid.CarriageReturn | arch/x86/rust/drivers/src/lib.rs:165 | a carriage return moves the cursor to column 0 and changes no cell |
| CharacterGrid.WriteWraps | arch/x86/rust/drivers/src/lib.rs:162-175 | text without controls stands in reading order from the cursor on, across the ends of rows, while rows suffice; every cell and the cursor are given |
| CharacterGrid.WrapsAt | arch/x86/rust/drivers/src/lib.rs:162-175 | the m-th character from column col of row r stands in row r + (col + m) / Cols, column (col + m) % Cols |
| CharacterGrid.TextPixels | arch/x86/rust/drivers/src/lib.rs:62-110 | on a fresh screen every pixel of such a text: the text colour exactly where the font has the bit of the character of that cell |
| CharacterGrid.FontBitIs | arch/x86/rust/drivers/src/lib.rs:96-110 | the highest bit of a font byte is the leftmost column |
| CharacterGrid.ColsAndRows | arch/x86/rust/drivers/src/lib.rs:157-172 | the columns and rows are all in which a character of 8 by 16 pixels ends before the edge |
| CharacterGrid.CursorSign | arch/x86/rust/drivers/src/lib.rs:187-190 | the cell under the cursor holds ">" while the cursor is visible and is blank otherwise; no other cell changes |
| CharacterGrid.BlinkLaw | arch/x86/rust/drivers/src/lib.rs:192-199 | over any number of updates the counter stays below its limit, and the cursor has switched once for every 200000000 of them |
| Framebuffer.FramebufferConsole.DrawPixel | arch/x86/rust/drivers/src/lib.rs:62-74 | writes one pixel of the screen, or nothing outside it, and no other pixel |
| Framebuffer.FramebufferConsole.DrawCharAt | arch/x86/rust/drivers/src/lib.rs:96-110 | draws the font's 8 by 16 pixels, clipped at the edges, and no other pixel |
| Framebuffer.FramebufferConsole.Clear | arch/x86/rust/drivers/src/lib.rs:113-120 | paints the whole screen with the background, which shows the blank grid |
| Framebuffer.FramebufferConsole.ScrollPixels | arch/x86/rust/drivers/src/lib.rs:124-147 | the copy in place moves every pixel exactly 16 rows up and leaves the bottom 16 rows in the background colour |
| Framebuffer.FramebufferConsole.Scroll | arch/x86/rust/drivers/src/lib.rs:124-149 | after the scroll the pixels show the grid without its first row, and the cursor is 16 pixels higher |
| Framebuffer.FramebufferConsole.NewLine | arch/x86/rust/drivers/src/lib.rs:151-160 | erases the cursor cell, goes to the next row and scrolls; the pixels still show the grid, also when the cursor stood beyond the last column |
| Framebuffer.FramebufferConsole.WriteChar | arch/x86/rust/drivers/src/lib.rs:162-175 | after every character the pixels show the grid and cursor_x + 8 < width, cursor_y + 16 < height |
| Framebuffer.FramebufferConsole.WriteBytes | arch/x86/rust/drivers/src/lib.rs:20-29 | after every string the pixels show the grid that the characters give |
| Framebuffer.FramebufferConsole.WriteStr | arch/x86/rust/drivers/src/lib.rs:177-190 | the same, with the cursor sign in the cell under the cursor, or nothing there while the cursor is hidden |
| Framebuffer.FramebufferConsole.RenderCursor | arch/x86/rust/drivers/src/lib.rs:187-190 | the pixels then show the grid with the cursor sign or, hidden, a blank under the cursor |
| Framebuffer.FramebufferConsole.UpdateCursor | arch/x86/rust/drivers/src/lib.rs:192-199 | counts, and at the limit switches the cursor and draws it; otherwise no pixel changes |
| PageAllocator.BitLaws | arch/x86/kernel/src/pmm.cpp:9-17 | setting or clearing a bit of a byte changes that bit and no other |
| PageAllocator.BitPlace | arch/x86/kernel/src/pmm.cpp:9-17 | the mark of page p is bit p % 8 of byte p / 8 |
| PageAllocator.LeastClear | arch/x86/kernel/src/pmm.cpp:38-47 | the page to allocate is the least clear one below the limit, none if and only if all are marked |
| PageAllocator.FreeLaw | arch/x86/kernel/src/pmm.cpp:49-55 | free_page clears the mark of page addr / 4096 and no other, and adds 4096 if it was set |
| PageAllocator.AllocLaw | arch/x86/kernel/src/pmm.cpp:38-47 | alloc_page marks the least clear page p and no other, takes off 4096 and returns 4096 p; without one it changes nothing and returns 0 |
| PageAllocator.LockLaw | arch/x86/kernel/src/pmm.cpp:28-36 | pmm_lock_pages marks the pages of the range and no other |
| PageAllocator.FreeThenAlloc | arch/x86/kernel/src/pmm.cpp:38-55 | in a full bitmap the page just freed is the one allocated next |
| PageAllocator.RunSurplus | arch/x86/kernel/src/pmm.cpp:28-55 | over every run free_memory minus 4096 times the number of clear pages is constant |
| PageAllocator.ClearLaw | arch/x86/kernel/src/pmm.cpp:28-55 | over every run a page is clear if and only if a request freed it and none has allocated or locked it since, or it was clear at the start and none has |
| PageAllocator.InitialLaw | arch/x86/kernel/src/pmm.cpp:19-26 | on whole bytes, after pmm_init nothing can be allocated, all memory is reported free, and the counter stays too high by that amount over every run |
| PageAllocator.FirstAfterInit | arch/x86/kernel/src/pmm.cpp:19-26 | in general the first page handed out after pmm_init is the first clear one of the last partial byte |
| PageAllocator.HeldStaysHeld | arch/x86/kernel/src/pmm.cpp:38-55 | a marked page that no request frees stays marked, and no allocation of the run returns its address |
| PageAllocator.AllocatesOnlyFreed | arch/x86/kernel/src/pmm.cpp:38-55 | from a full bitmap, an address other than 0 that an allocation returns is that of a page freed earlier and neither allocated nor locked since |
| PageAllocator.NullLaw | arch/x86/kernel/src/pmm.cpp:38-47 | alloc_page returns null if and only if no page below the limit is clear or page 0 is, and in the second case takes page 0 |
| PageAllocator.Memory.constructor | arch/x86/kernel/src/pmm.cpp:19-26 | marks the whole bytes of the bitmap, leaves the bits of a last partial byte, reports all memory free |
| PageAllocator.Memory.SetBit | arch/x86/kernel/src/pmm.cpp:9-11 | marks one page in the bitmap and no other |
| PageAllocator.Memory.ClearBit | arch/x86/kernel/src/pmm.cpp:12-14 | clears one page in the bitmap and no other |
| PageAllocator.Memory.GetBit | arch/x86/kernel/src/pmm.cpp:15-17 | reads the mark of one page |
| PageAllocator.Memory.LockPages | arch/x86/kernel/src/pmm.cpp:28-36 | marks a range of pages and counts only those that were clear |
| PageAllocator.Memory.AllocPage | arch/x86/kernel/src/pmm.cpp:38-47 | takes the least clear page p and returns 4096 p; without one changes nothing and returns 0 |
| PageAllocator.Memory.FreePage | arch/x86/kernel/src/pmm.cpp:49-55 | clears the mark of the page and no other, and counts it if it was set |

## Left out

- FatDriver.FileSystem.ReadSector: drive 1 is present, so the branches for a failed read or write are not modelled; what a drive returns past its end is not specified.
- FatDriver.FileSystem.Cat: requires that the file selected has at most 512 bytes and, if it has any, a sector on the disk; the source reads past its buffer otherwise.
- FatDriver.FileSystem.constructor: takes the BPB fields as arguments; the boot signature check and the printing of fat32_init are not modelled, and the root cluster is 2.
- FatDriver.FileSystem.Cd: components and paths of 256 characters or more, clusters outside the volume and a path without a slash to cut at are excluded, because the source then writes or reads outside its buffers and the disk.
- FatDriver.FileSystem.FollowPath: the same as for FatDriver.FileSystem.Cd.
- FatDriver.FileSystem.StepComponent: the same for one component.
- FatDriver.FileSystem.EnterComponent: the same as for FatDriver.FileSystem.StepComponent.
- FatDriver.FileSystem.GoUp: the same as for FatDriver.FileSystem.StepComponent.
- FatDriver.FileSystem.Ls: gives the entries in the order printed; the text printed for each (name, "<DIR>" or size) is not modelled.
- FatDriver.FileSystem.Execute: the split of the input line, the table search by name, missing arguments and the other commands of the shell are not modelled.
- FatDriver.FileSystem.ExecuteAll: the same as for FatDriver.FileSystem.Execute.
- FatScans.ScanLive: the scan loops that mkdir, touch, rm, cat and find_file each contain are modelled once and called.
- FatScans.ScanMatch: the same as for FatScans.ScanLive.
- FatScans.ScanFree: the same as for FatScans.ScanLive.
- Messages on the error stream, `pwd`, mirroring of the second FAT, long names, extensions and directories of more than one sector: not handled by the code or only output.
- Clusters are never freed by rm in the source, so no law about reuse of clusters is stated.
- Tasks.Tasking.constructor: includes init(), so calls before it, which schedule() ignores, are not modelled.
- Tasks.Tasking.Schedule: the switch of stacks (do_switch) is not modelled, only which task becomes current; so the saved stack top of the previous task is not either.
- Tasks.Tasking.Unblock: the task is one of the ring; the foreground task and Ctrl+C only name such a task.
- Tasks.Tasking.KillTask: the same as for Tasks.Tasking.Unblock.
- Terminals.Terminal: cursor registers, `refresh`, `view_offset`, `scroll` and `set_80x50` touch hardware or a buffer that is never filled.
- LineEditor.ReadLine: the keys are given as a sequence, the waiting for an interrupt is left out; the buffer must be large enough because the source does not check it.
- KeyboardRing: the translation of scan codes and the view scrolling keys are table look-ups and hardware.
- Numbers: the choice of base by the stream's format and the "0x" prefix are left out as easy.
- Framebuffer.FramebufferConsole: memory is an array of 32-bit words with the pitch in words; the address of the framebuffer and its mapping are not modelled.
- Framebuffer.FramebufferConsole.DrawPixel: only 32 bits per pixel; at 16 and 24 the scrolling of the source copies 4 bytes per pixel all the same.
- Numbers.PrintInt: the smallest int is excluded, its negation is undefined in the source.
- PageAllocator.Memory: the counter is an unbounded integer, the 64-bit wrap-around is not modelled; InitialLaw gives its value over every run on whole bytes, which is never negative.
- PageAllocator.Memory.LockPages: pages beyond the bitmap are excluded, the source would change whatever lies behind it.
- PageAllocator.Memory.FreePage: the same as for PageAllocator.Memory.LockPages.
- Interrupt descriptors, the ATA registers, the interrupt controller, the boot code, the shell's dispatch table and history, the editor and the system call stubs.
