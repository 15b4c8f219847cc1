# Ferro: a Dafny model of the storage stack and its neighbours

Ferro is a small UEFI-style firmware. This project models its stateful cores and proves what they promise:

* **the FAT32 driver** (`Fat*.dfy`, over the card in `SdCard.dfy`): FAT entries and their copies, cluster
  allocation, chain resizing, root-directory search and extension, file reads and writes, listings;
* **the UEFI variable store** and its persistence in a FAT32 file (`VarStore`, `VarCodec`, `Persist`);
* **open file handles** (`FileProtocol`): a whole-file cache with seek and write-back;
* **the PE32+ loader** (`PeLoader`, `PeRelocations`);
* **the page allocator, the memory map and ExitBootServices** (`PageAllocator`, `MemoryMap`, `BootServices`);
* **events and timers** (`Events`) and **CRC-32** (`Crc32`).

Code that updates state in place is a class or a method with loops; each is tied by its contract to a
function on values, and lemmas prove what the code promises about that function. Loops of the source that
span several concerns are split into one method per concern.

## How to read it

**The card.** `SdCard.Card` is an array of 512-byte blocks whose every transfer may fail. A failed write
leaves the block old or new, and drivers stop at their first error, so "in every outcome" covers stopping
after any prefix of block writes. `faults` counts the card's own failures: every driver method states that it
reports an SD error exactly when the card failed during it, which also means it never addresses a block
outside the card.

**Volumes.** `FatVolume.Wf` is the well-formedness the driver relies on: chains referred to by directory
entries are in range, acyclic and pairwise disjoint; no two file entries share a chain; the root directory has
unique names and nothing live after its first never-used slot; the card covers every cluster the FAT can index
and block numbers do not overflow 32 bits. Clusters in use that nothing refers to (leaks) are allowed.
`FatRuns.FormattedExists` shows such volumes exist for any such geometry, and `FatRuns.SomeGeometry` that there
is one. `PathBytes` is what a path of short names reads as. `FatWriter.Safe` says that every file whose path does
not go through the written root name, nested files included, reads byte for byte as before, every other root entry
is found as before, and `FatGeometry.ReservedKept`: nothing before the first FAT copy or past the last cluster changed,
nor the reserved top bits of any FAT entry. `FatOnCard` says what all this is in bytes of the card.

**Names.** `write_file` does not check its name. `FatWriter.Writable` is the least it needs: the name does not
start with a slot mark (0x00, 0xE5) and is not an entry for the root directory itself. `FatWriter.Storable` adds
that no root directory bears the name; `FatLimits` states what happens to files under one that does, and to the
volume: it stays well formed exactly when no directory reachable without the name leads to the one it names
(`FatWriter.Severed`).

**Where the code differs from its comments.** The model follows the code. The map key does not change "exactly
when the map does" (`src/efi/memory.rs:29-31`): a granted request for no pages changes the key alone
(`BootServices.KeyAndMapAfterGrant`). Loading variables from a volume without the file reports the driver's
NotFound, not NotOurData (`src/persist.rs:80-88`). An open with CREATE overwrites on *any* read error, not only
on a missing file (`src/efi/file_protocol.rs:292-299`): `FileTable.OpenRootFile` states that if the card failed and
the open succeeds all the same, CREATE was asked for and the file is now empty, whatever it held. The boot-services
map is read before the key (`src/efi/boot_services.rs:233-254`), and the key counts a grant only after the mark has
moved (`src/efi/memory.rs:58-61`); other cores allocating meanwhile can make a stale map pass in either gap
(`PageAllocator.StaleMapAccepted`, `PageAllocator.UncountedGrantAccepted`).

## Model

| member | source | states |
|---|---|---|
| FatGeometry.ClusterSectorsApart | src/fat32.rs:89-101 | Distinct (cluster, sector) pairs never share a block, and every data block lies past all FAT copies. |
| FatGeometry.FatCopiesApart | src/fat32.rs:121-138 | Entries of different FAT copies are in different blocks. |
| FatGeometry.PutEntry | src/fat32.rs:121-138 | Rewriting one entry of one copy changes no other entry of any copy and nothing outside the FAT. |
| FatGeometry.PutData | src/fat32.rs:89-101 | Writing any data block leaves every entry of every FAT copy as it was. |
| FatGeometry.EntryOnCard | src/fat32.rs:103-129 | Copy i's entry for cluster c is the little-endian word at byte 512 * (start + reserved + i * FAT size) + 4 * c of the card; readers take the low 28 bits of copy 0's. |
| FatGeometry.ClusterOnCard | src/fat32.rs:89-101 | Cluster c begins at byte 512 * (start + reserved + FATs * FAT size + (c - 2) * sectors per cluster) of the card, and its bytes follow in order. |
| FatChain.FollowChain | src/fat32.rs:443-472 | Following links from an acyclic chain's first cluster recovers exactly that chain. |
| FatChain.JoinChains | src/fat32.rs:168-187 | Linking the last cluster of one chain to the head of a disjoint one gives their concatenation as a chain. |
| FatChain.TruncatedResized | src/fat32.rs:206-213 | Cutting a chain keeps its first clusters in order and returns exactly the rest to the free ones. |
| FatChain.GrownResized | src/fat32.rs:215-219 | Hanging newly taken clusters on a chain keeps it as a prefix and uses up exactly those free clusters. |
| FatDir.NewSlotFields | src/fat32.rs:315-322 | The entry `write_file` leaves reads back, by the lookup's decoding, as a live file of that name, first cluster and size. |
| FatDir.StoredFind | src/fat32.rs:380-410 | Storing an entry in its place changes the lookup of its own name only. |
| FatDriver.FatEntry | src/fat32.rs:103-116 | Returns the low 28 bits of the card's word at the first copy's place for the cluster; fails only if the card does. |
| FatDriver.SetFatEntry | src/fat32.rs:121-140 | On the card, every copy's word for the cluster gets the new low 28 bits and keeps its top four, and no byte outside those words changes in any outcome; after a failure the first copy holds the old value or the new. |
| FatDriver.ZeroCluster | src/fat32.rs:142-150 | Clears the blocks of that cluster and touches no other block. |
| FatDriver.FindFreeCluster | src/fat32.rs:154-164 | Finds the lowest free cluster from the start; NoSpace exactly when there is none. |
| FatDriver.AllocateChain | src/fat32.rs:168-187 | Takes the lowest `count` free clusters, zeroed, as one chain; NoSpace only when fewer are free; touches free clusters only, in every outcome. |
| FatDriver.FreeChainFrom | src/fat32.rs:189-196 | Releases exactly the clusters of the chain and touches no others and no data. |
| FatDriver.ResizeChain | src/fat32.rs:202-223 | Same first cluster, exactly `needed` clusters, first min(old, needed) kept in order with their data, free clusters conserved; NoSpace only when free and old clusters together are too few, and then no cluster in use was touched. A chain that is not to shrink leads, data included, the chain there is afterwards, in every outcome. |
| FatReader.FindInDir | src/fat32.rs:380-410 | Returns the first live entry of that name before the first never-used slot; NotFound exactly when there is none. |
| FatReader.ReadFrom | src/fat32.rs:443-472 | Delivers the first min(size, buffer) bytes of the file and leaves the rest of the buffer alone. |
| FatReader.ReadFile | src/fat32.rs:479-482 | Delivers the named root entry's bytes, all of them when the buffer is large enough; NotFound exactly when there is no such entry. |
| FatReader.ResolveFrom | src/fat32.rs:426-441 | Walks a path of short names from any directory to its last entry as `PathBytes` takes it, into every component that is a directory; NotFound exactly when a component is missing. |
| FatReader.OpenPath | src/efi/file_protocol.rs:319-352 | Delivers the first bytes of the file a path names, as many as fit, or the directory it names. |
| FatListing.ListDir | src/fat32.rs:339-374 | Lists every live entry's name and size in directory order, as many as fit. |
| FatListing.EachListedOnce | src/fat32.rs:339-374 | What is listed is each live slot before the end mark, once, in directory order. |
| FatListing.LookupIsFirstListed | src/fat32.rs:339-410 | A lookup finds exactly the first listed entry of that name, so the two agree on what is there. |
| FatVolume.ResolveKept | src/fat32.rs:426-438 | A walk that never looks up the written name or enters the written directory resolves, and reads, the same after a change that leaves other directories and chains alone. |
| FatVolume.LeakKeepsWf | src/fat32.rs:168-187 | Taking free clusters without linking them keeps the volume well formed and every path unchanged. |
| FatVolume.GrowKeepsWf | src/fat32.rs:278-285 | A zeroed cluster hung on the root directory keeps the volume well formed, shows no file and hides none. |
| FatVolume.RegrownKeepsWf | src/fat32.rs:215-219 | A file's chain may become any chain from the same head drawn from its old clusters and free ones, linked on or not: the volume stays well formed. |
| FatVolume.CommitUnaffected | src/fat32.rs:312-323 | The single entry write makes the name found as the new entry and changes nothing any path can see that stays off the name and its old chain. |
| FatVolume.CommitKeepsWf | src/fat32.rs:312-323 | After the entry write the chains are again acyclic, disjoint and owned once, and root names unique. |
| FatVolume.OverDirectoryWfIff | src/fat32.rs:312-323 | After the entry write over a directory's name the volume is well formed, under some layout, if and only if before it no directory reachable without that name had an entry for the directory named. |
| FatWriter.SearchRoot | src/fat32.rs:233-276 | Ends at the first never-used slot or the end of the chain, with the last entry of that name if there is one and a reusable slot if there is one. |
| FatWriter.ExtendRoot | src/fat32.rs:278-285 | Adds one empty cluster to the root directory; in every outcome every path reads as before and the volume is well formed. |
| FatWriter.PrepareChain | src/fat32.rs:287-290 | The file gets a chain of exactly `needed` clusters drawn from its old ones and free ones, which succeeds without a card fault exactly when those are enough; otherwise its old chain and data are intact. A file that is not to shrink leaves the volume well formed, its old content still leading the chain, in every outcome. |
| FatWriter.ClustersForIsLeast | src/fat32.rs:231 | No cluster is wasted: n clusters are as many as `write_file` asks for, or more, if and only if n is at least one and n clusters take the bytes. |
| FatWriter.WriteData | src/fat32.rs:292-310 | The chain's content then starts with the data; in every outcome it holds some leading 512-byte pieces of the data over what it held, and no block outside the chain and no FAT entry changes. |
| FatWriter.WriteEntry | src/fat32.rs:312-323 | Replaces that one 32-byte slot and no other byte of the card. |
| FatWriter.WorkIsSafe | src/fat32.rs:230-310 | Whatever was done so far to free clusters and the target's own chain, every other file reads as before (when the target is a directory, every file whose path stays out of it). |
| FatWriter.CommitReads | src/fat32.rs:312-323 | Once the entry is written the name reads as what its chain held just before. |
| FatWriter.WriteFile | src/fat32.rs:230-326 | Without a card fault it succeeds if and only if the free clusters and those the name already has, less one for a new entry in a full root directory, are at least one and together take the data. Success: the file reads back as the data, has a plain entry of that size and not one cluster more than that takes, and the volume is well formed. NoSpace: every file, this one included, still reads as before. Any outcome, any interrupted prefix: every other file reads as before; nothing before the first FAT copy or past the last cluster is written, and no entry's top four bits change; the volume is well formed if the file is not to shrink; a name without a chain reads as before or as all of the data, and a file that is not to shrink as all of the data or, its entry unchanged, as some leading 512-byte pieces of the data over what it held. FAT copies stay in step unless the card failed. Over a directory: read-back, every file whose path stays out of that directory, and after a success a well-formed volume if and only if nothing reachable without the name leads to the directory. |
| FatRuns.WriteStep | src/fat32.rs:230-326 | While the card works, a write succeeds if and only if the volume has room for it. |
| FatRuns.RunKeeps | src/fat32.rs:230-326 | Over any run of writes, successful or out of space: well-formedness, mirrored FATs, nothing changed outside the volume or in reserved bits, and each root file reads as its last successful write. |
| FatRuns.CrashRunKeeps | src/fat32.rs:230-326 | Over any run that goes on after card failures, none of them during a write that shrinks its file, the volume stays well formed and nothing outside it or in reserved bits changes. |
| FatRuns.FormattedExists | src/fat32.rs:48-87 | For any geometry the driver relies on there is a well-formed volume with mirrored FATs in which no file is found. |
| FatOnCard.ChainOnCard | src/fat32.rs:103-116 | The chains the driver follows are those linked on the card by the words of the first FAT copy up to a word of 0x0FFFFFF8 or more. |
| FatOnCard.FreeOnCard | src/fat32.rs:154-164 | The free clusters are those from 2 on whose word there has its low 28 bits zero. |
| FatOnCard.ContentOnCard | src/fat32.rs:443-472 | Byte k of a chain's p-th cluster is byte k of that cluster on the card. |
| FatOnCard.FileOnCard | src/fat32.rs:233-472 | On a well-formed volume a root name reads as some content if and only if the card holds, byte for byte, a plain entry of that name before any end mark, and that content in the clusters linked from the entry's first cluster, up to its size: any FAT32 reader finds the files written, and reading finds exactly the files such a reader would. |
| FatLimits.ReleaseBreaks | src/fat32.rs:206-212 | A card failure in a shrinking write, once the first cluster past the new end is marked free, however many of the others are, and before the new end mark is written, leaves a disk on which no layout at all is well formed. |
| FatLimits.ReleaseReaches | src/fat32.rs:189-212 | Such a disk exists: it is one block write away, that of the release of that cluster in the first FAT copy. |
| FatLimits.WriteAnyName | src/fat32.rs:230-326 | Writing over any name, a directory's included: the name then reads as the data, and a path continuing under it (neither looking the name up again nor entering the directory by another route) reads as the continuation did from the root. The volume is then well formed if and only if no directory reachable without the name had an entry for the one it named. |
| FatLimits.LostUnderDirectoryIff | src/fat32.rs:261-323 | A file under a written name, by a path whose rest, walked from the root, neither looks the name up again nor enters the directory by another route, is lost if and only if the root entry was a directory of its own and the rest of the path did not name the same content from the root already; under a file's name none is. |
| FatLimits.SomeFileIsLost | src/fat32.rs:261-323 | For any geometry and any two different storable names there is a sound volume with room, a directory of the one name and in it an empty file of the other, to which all of this applies: the file is lost, and the volume stays well formed. |
| VarStore.SetRefines | src/efi/variables.rs:97-136 | `set` on the slot array is bind or unbind on a finite map, with the same result, and keeps slots duplicate-free, names NUL-free and data 1 to 512 bytes. |
| VarStore.SetRunRefines | src/efi/variables.rs:97-136 | The same over every run of `set` calls. |
| VarStore.SetMeans | src/efi/variables.rs:97-136 | Up to 512 bytes are bound to the key, attributes included, whenever the key is bound or fewer than 32 are; no data unbinds a bound key; anything else is refused, by its cause, and no other key is ever touched. |
| VarStore.ListingIsView | src/efi/variables.rs:141-174 | The live slots in order name each variable of the map exactly once. |
| VarStore.EnumerationEnds | src/efi/variables.rs:141-174 | Enumeration from the empty name ever reports NotFound if and only if no live variable has an empty name; then it first visits every variable exactly once. |
| VarStore.UnknownNameRefused | src/efi/variables.rs:141-174 | A non-empty name is refused exactly when no live variable bears it. |
| VarStore.UsedBounded | src/efi/variables.rs:177-188 | The bytes in use never exceed the total, so the subtraction cannot underflow. |
| VarStore.SetUses | src/efi/variables.rs:177-188 | An empty store uses nothing, and a `set` that goes through adds the new data's size and takes off the old data's. |
| VarStore.NameRead | src/efi/variables.rs:45-58 | A name of up to 32 units is read up to its NUL whatever follows; a longer one is refused. |
| VarStore.ReadName | src/efi/variables.rs:45-58 | The units before the first NUL, or None when none comes within the limit. |
| VarStore.Store.Get | src/efi/variables.rs:74-94 | The map's value for the key copied out, its size when the buffer is too small, NotFound exactly when unbound; the rest of the buffer untouched. |
| VarStore.Store.Set | src/efi/variables.rs:97-136 | The store's map and result are those of the map operation; a bad name changes nothing. |
| VarStore.Store.GetNext | src/efi/variables.rs:141-174 | The key after the given one in slot order, written NUL-terminated so that it can be passed back. |
| VarStore.Store.StorageInfo | src/efi/variables.rs:177-188 | What is left plus what is used is the total. |
| VarCodec.Serialize | src/efi/variables.rs:195-239 | Succeeds exactly when the image (8 bytes plus every entry) fits, and then the buffer starts with it; the store is unchanged. |
| VarCodec.Deserialize | src/efi/variables.rs:245-295 | On arbitrary bytes: stays in bounds, keeps the store sound, refuses exactly what lacks the mark, otherwise applies the parsed records in order as `set` would. |
| VarCodec.RecordRoundTrip | src/efi/variables.rs:209-285 | A packed variable, wherever it lies in a buffer, parses back to the same name, GUID, attributes and data. |
| VarCodec.RecordLayout | src/efi/variables.rs:209-229 | Wherever a record lies: name length and units, GUID, attributes, data length and data, little-endian, at these offsets. |
| VarCodec.ImageLayout | src/efi/variables.rs:195-239 | The image is the mark FVR1, the number of variables bound, and each live slot's record right after the one before, to the image's end. |
| VarCodec.LoadOfImage | src/efi/variables.rs:195-295 | Loading the image of S into T gives T overridden by S and counts all of S, whenever the union fits the slots. |
| Persist.Persistence.Save | src/persist.rs:41-46 | TooLarge exactly when the image exceeds 8192 bytes; otherwise, without a card fault, it succeeds if and only if the volume has room, counting the clusters the file already has, and the volume then holds the image. Other files are safe always; the volume is well formed in every outcome unless the file shrinks; a first save is complete or leaves no file, and a later one that does not shrink the file leaves the image or leading 512-byte pieces of it over the old file. |
| Persist.Persistence.LoadVars | src/persist.rs:84-88 | The store becomes the live one merged with the file's first 8192 bytes; on any failure it is unchanged, and each failure has its cause. |
| Persist.SavedMapReloads | src/persist.rs:41-88 | A volume a save left behind rebuilds the saved map in any live store the two fit in. |
| Persist.SaveThenReload | src/persist.rs:41-88 | Save, reboot, load: without a card fault the save goes through if and only if the image fits the buffer and the volume, and then the new store's map equals the saved one. |
| FileProtocol.PerformRefines | src/efi/file_protocol.rs:409-508 | Every read, write and seek on the cache is that operation on a plain byte sequence with a position, zero-filling gaps. |
| FileProtocol.RunRefines | src/efi/file_protocol.rs:409-508 | The same, replies included, for any sequence of operations. |
| FileProtocol.WriteReadsBack | src/efi/file_protocol.rs:409-508 | What is written at a position up to the 64 KiB limit is what a read there returns, and only those bytes changed. |
| FileProtocol.AppendsAtEnd | src/efi/file_protocol.rs:488-508 | Seeking to 2^64 - 1 is seeking to the end, and writing there appends. |
| FileProtocol.ReadsInPieces | src/efi/file_protocol.rs:409-449 | A read returns the bytes from the position on, as many as asked for and left; two reads in a row are one of both sizes. |
| FileProtocol.Refusals | src/efi/file_protocol.rs:451-508 | Writing without write access, writing past 64 KiB and seeking past it are refused and change nothing. |
| FileProtocol.FileTable.AllocSlot | src/efi/file_protocol.rs:155-166 | Takes the first unused slot, reset; None exactly when all are in use. |
| FileProtocol.FileTable.FetchOrCreate | src/efi/file_protocol.rs:291-301 | The scratch buffer holds the file's bytes as far as it goes, a new file being empty; without a card fault an existing file is found and untouched, and creating one fails only for want of room; a success although the card failed means CREATE, and the file is then empty. |
| FileProtocol.FileTable.OpenRootFile | src/efi/file_protocol.rs:283-316 | The handle caches what the root entry's clusters hold up to its size (for a file, its bytes; a directory is opened the same way), the whole of it if and only if that is at most 64 KiB, at position 0; other slots and other files are untouched; each failure has its cause; a success although the card failed means CREATE, and the file is then empty. |
| FileProtocol.FileTable.ReadHandle | src/efi/file_protocol.rs:409-449 | Performs a read on that slot alone; an unopened handle changes nothing. |
| FileProtocol.FileTable.WriteHandle | src/efi/file_protocol.rs:451-475 | Performs a write on that slot alone, keeping the bytes past the length zero. |
| FileProtocol.FileTable.SetPosition | src/efi/file_protocol.rs:488-508 | Performs a seek on that slot alone; all ones means the end. |
| FileProtocol.FileTable.FlushIfDirty | src/efi/file_protocol.rs:379-391 | The slot ends clean; the file on disk equals the cache unless the unreported write failed, and that only for a card fault or a volume without room. |
| FileProtocol.FileTable.CloseHandle | src/efi/file_protocol.rs:393-400 | The slot is released after write-back, which fails only for a card fault or a volume without room; other slots and other files are untouched. |
| FileProtocol.Session | src/efi/file_protocol.rs:287-508 | Open, any operations, close: replies are the byte sequence's, and opening again starts from its final content unless the write-back failed; a file longer than the cache is cut short only by a session that wrote; the volume is well formed after it unless the write-back failed; this also for the name of a directory nothing else leads to, every file whose path stays out of it reading as before; with a sound card it starts from the file's real content. |
| PeRelocations.WalkIsList | src/pe.rs:133-173 | Although the walk re-reads the directory from the image it patches, if no target touches the directory it adds `delta` at each target the directory listed at the start, and stops at the first unsupported entry. |
| PeRelocations.DirectoryLists | src/pe.rs:143-166 | Read by its format (blocks of a page address, a size and 16-bit entries whose top four bits are the kind), a directory lists each word exactly as often as its kind-10 entries name it. |
| PeRelocations.UnsupportedRefused | src/pe.rs:155-167 | The first entry of a kind other than 0 and 10 is refused by its kind, in whatever block it comes. |
| PeRelocations.AddAllWord | src/pe.rs:159-164 | A target's word gains `delta` once per listing, modulo 2^64. |
| PeRelocations.AddAllOutside | src/pe.rs:159-164 | A byte in no target is unchanged. |
| PeRelocations.AddAllTwice | src/pe.rs:159-164 | Relocating by d and then by e is relocating by their sum modulo 2^64, when targets are pairwise equal or disjoint. |
| PeLoader.HeaderAcceptedIff | src/pe.rs:55-91 | A file is accepted exactly when it carries the signatures and machine and is long enough for the fields read. |
| PeLoader.HeaderFields | src/pe.rs:55-91 | Section table, number of sections, entry point, preferred base, image size and relocation directory are the file's words at the offsets the format gives them. |
| PeLoader.UnrelocatedIffFits | src/pe.rs:96-106 | The sections are all copied if and only if each one's header and data lie in the file and the section in the image. |
| PeLoader.CopiedByte | src/pe.rs:96-119 | Each image byte is that of the last section covering it, at its offset, or zero. |
| PeLoader.UnrelocatedByte | src/pe.rs:96-119 | In the file's own words: where a section reaches (virtual address at offset 12, the smaller of the sizes at 8 and 16) and no later one does, the image holds its byte, from the file offset at 20 on; elsewhere zero. |
| PeLoader.LoadedContents | src/pe.rs:93-124 | The loaded image is zeros and sections with the load offset added at the targets and nothing else changed. |
| PeLoader.RelocatedWords | src/pe.rs:121-173 | In the directory's own words: each word it lists has the load address less the preferred base added once per listing, modulo 2^64, and every other byte is the sections'. |
| PeLoader.RebaseIsReload | src/pe.rs:121-173 | Loading at A and relocating by B-A gives, byte for byte, the image loaded at B, when the relocation targets are pairwise equal or disjoint and miss the directory. |
| PeLoader.ApplyRelocations | src/pe.rs:133-173 | RAM holds the walk's image where the image is, and is otherwise unchanged, also when an entry is unsupported. |
| PeLoader.Load | src/pe.rs:55-131 | RAM at the granted address is exactly the image loaded there and the rest of RAM is untouched; each error with its cause; the image lies inside RAM and is just what the allocator handed out. |
| PageAllocator.NextInv | src/efi/memory.rs:47-62 | Every step of every concurrent caller (load, refusal, exchange, failed exchange, count) keeps the allocator's invariant. |
| PageAllocator.GrantsInsideIffAllFit | src/efi/memory.rs:47-62 | Under every interleaving grants are page-aligned, and all end inside RAM if and only if no granted request was for more pages than RAM holds; a larger one can only be granted by 64-bit wrap-around. |
| PageAllocator.GrantsAreDisjoint | src/efi/memory.rs:43-62 | Then grants never overlap and stay between the firmware's end and the RAM limit. |
| PageAllocator.FailureMeansInterference | src/efi/memory.rs:54-61 | A failed exchange implies that another caller was granted pages since this one's load. |
| PageAllocator.WrappingRequestSucceeds | src/efi/memory.rs:50 | 2^52 pages are "granted" without moving the mark. |
| PageAllocator.ConcurrentHandshake | src/efi/boot_services.rs:213-262 | Beside concurrent allocations, when the exit finds the key current, the map handed over is the one made if the key read plus the callers then between their exchange and their count is the same sum as when the mark was read; if every request granted was for some pages that fit RAM, only if. |
| PageAllocator.StaleMapAccepted | src/efi/boot_services.rs:233-254 | An interleaving exists in which a grant between the reading of the map and of the key makes a stale map pass. |
| PageAllocator.UncountedGrantAccepted | src/efi/memory.rs:54-61 | An interleaving exists in which map and key are read together and an exchange not yet counted at the exit makes a stale map pass. |
| PageAllocator.SoloCallIsAllocate | src/efi/memory.rs:47-62 | An undisturbed caller's steps exist and compute the sequential allocation. |
| MemoryMap.GetMemoryMap | src/efi/memory.rs:80-120 | Fills in the whole map when it fits, else reports so and writes nothing. |
| MemoryMap.MapCoversIff | src/efi/memory.rs:80-120 | The descriptors handed out cover [0, 0x8000_0000), sorted, without gap or overlap, if and only if the mark has not passed the framebuffer; their pages sum to 0x8_0000 plus the pages by which it has. |
| MemoryMap.CoversOnce | src/efi/memory.rs:98-118 | Then each address lies in exactly one descriptor. |
| MemoryMap.MapTypesAreRight | src/efi/memory.rs:98-118 | A descriptor says truly of every address in it whether it is free, firmware, allocated or a device. |
| BootServices.Services.GetMemoryMap | src/efi/boot_services.rs:213-262 | Size, key and map as specified; BUFFER_TOO_SMALL exactly when the buffer is, with the size needed; the rest of the buffer untouched. |
| BootServices.Services.AllocatePages | src/efi/boot_services.rs:193-207 | Refused after exit without effect, else one allocation (`PagesServed` says which). |
| BootServices.Services.AllocatePool | src/efi/boot_services.rs:264-282 | Refused after exit without effect, else whole pages for the size, at least one (`PoolServed`). |
| BootServices.PagesServed | src/efi/boot_services.rs:193-207 | Before the exit pages are granted at the mark, and the mark moved past all of them, if and only if that many are left; otherwise, and after the exit, nothing changes. |
| BootServices.PoolServed | src/efi/boot_services.rs:264-282 | The same for a pool of any size up to RAM's, which takes the fewest pages it fits in, at least one. |
| BootServices.GrantsApart | src/efi/boot_services.rs:193-502 | Over any run of requests no larger than RAM, whatever is granted, sized by what was asked for, lies between the starting mark and the end of RAM, and no two grants overlap. |
| BootServices.Services.LocateHandleBuffer | src/efi/boot_services.rs:416-460 | Allocates for any match, exited or not. |
| BootServices.Services.ProtocolsPerHandle | src/efi/boot_services.rs:462-502 | Allocates for any protocol carried, exited or not. |
| BootServices.ListsServed | src/efi/boot_services.rs:416-502 | Both take the pages for 8 bytes a handle or 24 a protocol, before the exit or after it, if and only if they are left. |
| BootServices.Services.ExitBootServices | src/efi/boot_services.rs:765-774 | Ends boot time only with the current key; once ended, succeeds and changes nothing. |
| BootServices.CurrentKeyAccepted | src/efi/boot_services.rs:213-774 | The current key, which is the one a map request reports, ends boot time and changes nothing else; any other changes nothing. |
| BootServices.KeyHandshake | src/efi/boot_services.rs:213-774 | In any run of services one at a time, if boot time ends with the key a GetMemoryMap gave and the framebuffer stayed put, the map at exit is the map given. |
| BootServices.AfterExit | src/efi/boot_services.rs:193-774 | After exit a run leaves the allocator where it was if and only if no call in it is a handle lookup with a match and a page free, or a protocol list with entries and the pages for 24 bytes each free; the gated services never move it. |
| BootServices.UngatedCallMovesMark | src/efi/boot_services.rs:448-450 | Such a call does move the mark. |
| BootServices.KeyAndMapAfterGrant | src/efi/memory.rs:58-69 | A grant always changes the key, and the map if and only if any pages were asked for. |
| BootServices.PoolGrantCovers | src/efi/boot_services.rs:271-282 | A granted pool is really covered if and only if it is no larger than RAM. |
| BootServices.OversizedPoolGranted | src/efi/boot_services.rs:274 | The rounding wraps: a pool of 2^64 - 1 bytes is granted one page. |
| BootServices.RunMapCovers | src/efi/memory.rs:80-120 | In every run of requests no larger than RAM, with the framebuffer page-aligned inside RAM, the reported map covers the address space if and only if the mark has not passed the framebuffer. |
| BootServices.FramebufferReported | src/efi/boot_services.rs:138-262 | Once set, every address of a framebuffer the mark has not passed lies in a device descriptor. |
| Events.EventTable.Create | src/efi/events.rs:72-85 | Takes the first unused slot, reset; None exactly when all 16 are in use. |
| Events.EventTable.Close | src/efi/events.rs:87-97 | Frees that slot alone. |
| Events.EventTable.SetTimer | src/efi/events.rs:107-126 | Arms or cancels that slot alone; a period is at least one tick. |
| Events.EventTable.Signal | src/efi/events.rs:128-141 | Marks that slot and makes its callback once. |
| Events.EventTable.Check | src/efi/events.rs:145-188 | Reports the condition, clears a generic signal, rearms a due timer. |
| Events.CreateGives | src/efi/events.rs:72-85 | A new event is the first free slot, numbered from one, with its kind and callback, and not signaled or armed; no other slot changes. |
| Events.CloseFrees | src/efi/events.rs:87-97 | Closing frees that event alone; afterwards every operation on it is refused. |
| Events.ArmedOneShot | src/efi/events.rs:107-188 | Armed at `now` for `ticks`, a one-shot timer is reported once if checked at `now + ticks` or later and never before; a cancelled one never. |
| Events.ArmedPeriodic | src/efi/events.rs:107-188 | Armed so, a periodic timer is not reported before `now + ticks`, is reported if checked from then on, and at most once a period after that, a period being at least one tick. |
| Events.PeriodicFirings | src/efi/events.rs:149-188 | A periodic timer with deadline D and period P is reported at most 1 + (now - D) / P times, never before D, over any run with non-decreasing ticks. |
| Events.RefiresAfterPeriod | src/efi/events.rs:155-156 | After a report it is reported again a period later and not before, or at once if its next deadline wraps. |
| Events.OneShotFirings | src/efi/events.rs:149-188 | A one-shot timer is reported exactly once if ever checked at its deadline or later; armed for tick 0 it is never reported. |
| Events.GenericReports | src/efi/events.rs:128-188 | Reports of a generic event never exceed its signals. |
| Events.CallbacksMatchReports | src/efi/events.rs:137-162 | An event's own callback is made once for each signal and, for a timer, once for each report. |
| Crc32.Crc32Ieee | src/efi/crc32.rs:4-14 | The mask-based loop computes the table-free polynomial division. |
| Crc32.FeedWord | src/efi/crc32.rs:4-14 | Feeding four bytes is 32 division steps on the register xor the little-endian word. |
| Crc32.BurstDetected | src/efi/crc32.rs:4-14 | Messages of equal length differing only inside one window of four bytes have different CRCs. |
| Crc32.Residue | src/efi/crc32.rs:4-14 | A message followed by its own little-endian CRC always has CRC 0x2144DF1C. |
| Crc32.CheckValues | src/efi/crc32.rs:4-14 | The published check values: 0 for no bytes and 0xCBF43926 for the digits 1 to 9. |

## Left out

- FatWriter.WriteFile: after a card failure during a shrinking write well-formedness is not claimed, being false (`FatLimits.ReleaseBreaks`), nor is what the file being cut then reads as; a root entry for the root directory itself is excluded.
- FatLimits.WriteAnyName: over a directory's name well-formedness after a card failure is not stated.
- FatLimits.LostUnderDirectoryIff: a path whose rest looks the name up again or enters the directory by another route is not decided.
- FatWriter.SearchRoot: repeated names in the root directory are possible only on volumes that are not well formed; what the write then does is not pursued.
- FatReader.ReadFile: reading is stated for well-formed volumes; cyclic or out-of-range chains, which the source would follow without end, are excluded by `Wf`.
- FileProtocol.FileTable.OpenRootFile: one handle per file.
- FileProtocol.Session: a directory's name only if no directory reachable without it leads to that directory (`FatWriter.Severed`); the reason for a failed write-back is stated for a file that existed at open; handles on directories and on files below the root (what opening those reads is `FatReader.OpenPath`), file info and delete are not modelled.
- PeLoader.ApplyRelocations: directories and targets that leave the image are outside the model, as for `Load`.
- PeLoader.Load: sections, relocation blocks and targets outside the image, which the source does not check, are outside the model (`Stray`), and the file's bytes do not overlap the image.
- PageAllocator.GrantsAreDisjoint: stated for runs in which no granted request exceeds RAM; the generation counter does not wrap.
- BootServices.KeyHandshake: services run one at a time; `PageAllocator.ConcurrentHandshake` covers allocations by other cores in between, those between their exchange and their count included.
- BootServices.Services.LocateHandleBuffer: how many handles match is a parameter, and the array of handles written is not modelled.
- BootServices.Services.ProtocolsPerHandle: how many protocols the handle carries is a parameter, and the pointers and GUIDs written are not modelled.
- Events.PeriodicFirings: the tick count stays a period below 2^64, callbacks leave the table alone, and converting microseconds to ticks is a parameter.
- Events: ConsoleIn readiness is a parameter, and blocking `wait` is not modelled.
- Path text: `to_8_3`, splitting at backslashes and `mount`'s parsing of boot sectors; paths are sequences of short names and the geometry is a parameter.
- Null-pointer checks of the service entry points, the protocol database behind the two ungated services, `load_image` bookkeeping, `start_image` and free services beyond their lack of effect on the allocator.
- Variable slots hold names and data as sequences; stale bytes past a slot's lengths, which nothing reads, are not represented.
- SD, USB, mailbox, UART, timer, MMU and cache hardware, display and console code, device paths, and the header CRCs of the system table.
