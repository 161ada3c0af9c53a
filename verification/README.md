# EXT4 Inspector: a verified model

EXT4 Inspector reads a raw EXT4 image and reports on its metadata. This project models the parts of it
that decide something about the image, and proves what their answers mean: raw block I/O, superblock
and inode decoding, block ownership analysis, directory and extent parsing, path resolution, directory
search, backup discovery and superblock restoration. What is not covered is listed at the end.

`dafny verify dfyconfig.toml` checks the whole project (Dafny 4.11).

## How the model is laid out

| file | models |
|---|---|
| `Bytes.dfy`, `Arithmetic.dfy`, `Growth.dfy` | little-endian fields, unsigned arithmetic, growable arrays whose `realloc` may fail |
| `Device.dfy`, `Io.dfy` | the image, short and failing transfers, the retry loops |
| `Super.dfy`, `Group.dfy`, `Inode.dfy`, `InodeAddress.dfy` | geometry, descriptors, inode decoding and addressing |
| `Block.dfy`, `BlockMap.dfy`, `Chain.dfy`, `Ownership.dfy`, `CleanScan.dfy`, `ScanCount.dfy` | block traversal, what it delivers in terms of the stored pointers, the two structures of the ownership scan, what its verdict and its count mean |
| `Dir.dfy`, `DirTiling.dfy`, `DirRoundTrip.dfy`, `PrintedDirectory.dfy` | directory records: parsing, tiling, the round trip with the printer of the test suite, for one block and for whole directories |
| `Extent.dfy`, `ExtentTree.dfy`, `PrintedTree.dfy`, `OverrunImage.dfy`, `Lookup.dfy`, `Names.dfy` | the extent walk and its limits, trees written byte by byte, directory listing, name lookup, what the name tests mean |
| `Path.dfy`, `SearchSpec.dfy`, `SearchTrail.dfy`, `SearchOrder.dfy`, `TourLaws.dfy`, `Search.dfy` | path resolution and the recursive search of the directory graph |
| `Crc.dfy`, `CrcValues.dfy`, `Sparse.dfy`, `Backup.dfy`, `Recovery.dfy`, `RestoreBytes.dfy` | CRC-32C and its known values, backup groups, discovery, restoration, which bytes a restore writes |

Code that changes things step by step is a method or a class, proved against a function that says what it
computes; the lemmas are about those functions. What those functions read from the image is stated once
more in terms of the stored bytes, with plain numbers for the constants of the format: by
`Super.OpensExactly`, `Group.DescriptorExactly`, `InodeAddress.RecordExactly`, `Inode.AcceptedInodes`,
`Dir.EntryMeaning`, and the modules `BlockMap`, `ScanCount`, `Names`, `PrintedDirectory`, `PrintedTree`,
`CrcValues` and `RestoreBytes`. `uint64_t` operations that could wrap are written with `Wrap64`, and the lemmas named
`...IsExact` show where they do not. A C return value of 0 is `Done`, `ok` or `Some`; the two causes of a
nonzero return, lack of memory and a defect of the image, are told apart because the source handles them
differently.

The image is a sequence of bytes plus a set of positions at which a transfer fails. For reads these
failures are persistent, so that reading twice gives one answer. Writes may stop anywhere: how far each
one gets is part of the `Disk`, fixed and unknown to the program. Memory works the same way: a `Heap`
fixes which allocation requests it will refuse. Contracts therefore say not only what a success means
but when it must come: a method reports lack of memory exactly when one of its requests was refused
(`RefusedSince`), and a write fails exactly when one of its transfers stalled (`StalledSince`).

The C code bounds the entries of an extent node by a constant that is too large for blocks of 1024 and
2048 bytes. A walk that would read past the end of such a node ends as `Overrun` in the model. The
specification functions, and the results about extent trees, lookup, paths and the directory graph, are
total and need no hypothesis about it; the methods that stand for the code ask that the directories they
list are `Contained`, that is, that no walk they make overruns. `Extent.DirectoryContained` shows where
that always holds: for blocks of 4096 bytes or more, and for any directory that uses direct pointers or
keeps its extents in the inode. `OverrunImage` shows that this is the right condition: it builds images
with blocks of 1024 and 2048 bytes that open, and whose root directory, with an extent tree of height 1,
makes the walk leave its node.

## Main results

* **Ownership scan.** With no allocation refused, the scan completes, and it reports no corruption and no
  shared block if and only if the map from (inode, position in its block map) to physical block is
  one-to-one and in range over every allocated file and directory, none of which uses extents or deep
  indirection; `Points` gives that map as the stored block array and the words of the indirect table. The
  owners index is the exact inverse of the chains, in scan order, and both hold the same number of
  entries.
* **Directory search.** On every image, cyclic ones included, the search terminates, visits only reachable
  directories, and reports each matching entry once. With no allocation refused and no path through more
  than 1024 different directories it visits all of them and reports exactly their matching entries,
  whether or not it notes a failure. Visits and reports come in the order of a depth-first tour. If the
  depth guard does fire, every path to a directory that was missed leads through one that lies at the end
  of a path of exactly 1025 visited directories; what is farther away is always missed.
* **Directories.** Records tile a block on arbitrary bytes. A whole directory as the printer of the tests
  writes it is listed back unchanged, block by block; looking a name up in it finds exactly the records of
  that name; its edges in the graph of the search are its records of type directory other than "." and
  "..". On any image, lookup agrees with listing.
* **Extents.** On every image the walk succeeds exactly when the nodes store a tree, and visits the
  left-to-right expansion of its leaves; a tree written out entry by entry is walked as that tree.
* **Checksum.** The register computed is CRC-32C: it has the known check value, checksums compose over
  concatenation, and appending a checksum to its data leaves the known residue. Any change confined to 32
  consecutive bits, at any alignment, outside the uuid and the checksum field changes the superblock
  checksum. Of 33 consecutive bits exactly one pattern of change goes unnoticed, that of the polynomial.
* **Addresses.** No guarded 64-bit computation wraps; inode records lie in their tables, do not straddle
  blocks and do not overlap. The group count is exact although its sum may wrap.
* **Backups and restore.** Discovery lists exactly the groups that are powers of 3, 5 or 7 (at most 45 of
  them). A restore writes exactly when discovery succeeds, the selected backup can be read at its place,
  has the magic and passes validation, whatever its checksum says, and writing is permitted and confirmed;
  it changes only a prefix of bytes 1024 to 2047; it succeeds exactly when the write does not stall, and
  the primary superblock is then the backup's. The image then opens exactly if the group count of the
  backup is accepted.

## Model

| member | source | states |
|---|---|---|
| Device.ReadBlockIsReadAt | src/src/ext4_io.c:15-49 | The block request guards never wrap and refuse no block whose bytes could be read: the outcome is that of reading the exact byte range |
| Io.Disk.ReadExactAt | src/src/ext4_io.c:82-110 | However the kernel cuts the transfers, the read delivers exactly the requested bytes, or fails exactly when some of them cannot be had |
| Io.Disk.WriteExactAt | src/src/ext4_io.c:112-140 | Some prefix of the buffer, and nothing else, reaches the file; the write succeeds exactly when the request is in range and no transfer stalled, and the prefix is then the whole buffer |
| Io.OverwriteInPieces | src/src/ext4_io.c:122-137 | Storing a buffer in two successive pieces is storing it whole |
| Super.GroupCountIsExact | src/src/ext4_super.c:32-48 | For all 64-bit block counts the possibly wrapping computation yields the exact rounded-up quotient and refuses exactly the quotients outside 1 to 2^32-1 |
| Super.OpenedGeometry | src/src/ext4_super.c:150-197 | Every filesystem that opens has power-of-two block and inode sizes, inode size at most the block size, and counts within their types |
| Super.ValidatesExactly | src/src/ext4_super.c:150-197 | Structural validation passes exactly under the written-out conditions on the bytes of the superblock |
| Super.OpensExactly | src/src/ext4_super.c:234-274 | An image whose superblock can be read opens exactly if that is valid and the rounded-up number of groups is below 2^32, and then with the written-out geometry |
| Super.WrittenSuperblockOpens | src/tests/ext4_metadata_tests.c:69-88 | A superblock written field by field, with 256-byte inodes and 64-byte descriptors, opens with exactly the geometry that was written |
| Arithmetic.BitTrick | src/src/ext4_super.c:181-187 | n AND (n-1) is zero for exactly the powers of two |
| Group.DescriptorOffsetIsExact | src/src/ext4_group.c:17-60 | An accepted descriptor offset is the exact product sum; no operation wraps |
| Group.InodeTableBlocksIsExact | src/src/ext4_group.c:81-87 | The inode table size in blocks is the exact rounded-up quotient |
| Group.DescriptorExactly | src/src/ext4_group.c:62-137 | A descriptor is accepted exactly if its bytes can be read at their exact place, name three existing blocks other than 0, and leave room for the whole inode table; the table used is the one they name |
| InodeAddress.OffsetIsExact | src/src/ext4_inode.c:59-98 | An accepted inode offset is table block times block size plus slot times inode size; no operation wraps |
| InodeAddress.RecordExactly | src/src/ext4_inode.c:59-98 | The record of inode n is slot (n - 1) mod inodes per group of the table of group (n - 1) div inodes per group, found exactly if the descriptor is accepted and those bytes can be read |
| InodeAddress.NoSuchInode | src/src/ext4_inode.c:41-57 | There is no inode 0 and none past the inode count |
| InodeAddress.InodeAddress | src/src/ext4_inode.c:59-98 | An accepted inode lies inside the validated table of its group, below the end of the filesystem, and inside one block |
| InodeAddress.InodesDisjoint | src/src/ext4_inode.c:59-98 | Different inodes of one group, or of groups with disjoint tables, occupy disjoint bytes |
| Inode.ValidateExtentTree | src/src/ext4_inode.c:110-156 | The loop accepts an extent root exactly when header, size and every entry satisfy the written-out condition |
| Inode.ValidateInodeBlocks | src/src/ext4_inode.c:158-187 | The loop accepts exactly the inodes whose block array satisfies the written-out condition |
| Inode.LoadInode | src/src/ext4_inode.c:227-263 | Loading an inode yields the decoded record when its number, address, bytes and blocks are all in order, and fails otherwise |
| Inode.InodeFields | src/src/ext4_inode.c:189-225 | The decoded mode, kind, size, flags and block array, by their places in the record |
| Inode.AcceptedInodes | src/src/ext4_inode.c:110-187 | A record is accepted exactly if its mode is not zero and it is a short symbolic link, or has a sound extent root, or names only existing blocks, written out on the bytes of the record |
| Inode.RootBytesRoundTrip | src/src/ext4_dir.c:277-285 | The extent root rebuilt from the decoded block array equals raw inode bytes 40 to 99 |
| Inode.RootIsValidated | src/src/ext4_inode.c:175-177 | The root handed to the walk is the one that validation checked, so it has at most 4 entries |
| Growth.Reserve | src/src/ext4_block.c:39-48 | With spare capacity nothing is requested; a full array is doubled if the request is granted and otherwise stays as it is |
| Growth.ItemSet.Contains | src/src/ext4_block.c:17-28 | The linear scan finds exactly the members |
| Growth.ItemSet.Add | src/src/ext4_block.c:30-53 | Adding keeps the array duplicate-free and appends the item exactly when it is new; it fails exactly when the array was full and the request for room was refused, and then changes nothing |
| Block.InodeChain.AddRef | src/src/ext4_chain.c:27-49 | The reference is appended, unless the array was full and the request for room was refused; then nothing changes |
| Block.KeptBlocks | src/src/ext4_block.c:71-98 | A block ends up in the chain exactly when it is in range and some reference of the inode names it |
| Block.KeptDistinct | src/src/ext4_block.c:87-97 | The blocks of a chain are pairwise different |
| Block.KeptAreFirstOccurrences | src/src/ext4_block.c:71-98 | The references kept are exactly those that name an existing block for the first time in scan order |
| Block.Accounting | src/src/ext4_block.c:71-98 | Every nonzero reference is either kept or counted as one corruption, never both |
| Block.EmitBlock | src/src/ext4_block.c:71-98 | One emission extends the scanned prefix by one reference: chain, seen set and corruption count are again what the specification says; it fails exactly when memory was refused, for a fresh block, and then leaves chain and count alone |
| Block.TraverseSingleIndirect | src/src/ext4_block.c:100-157 | After the table, chain and count cover all candidate references; lack of memory is reported exactly when a request was refused, a bad image only when the table is unreadable |
| Block.TraverseInodeBlocks | src/src/ext4_block.c:159-215 | A traversal that returns 0 delivers exactly the specified references and corruption count; it fails exactly when a request for memory was refused or the table is reached and unreadable |
| BlockMap.TraversedBlocks | src/src/ext4_block.c:100-211 | The blocks of a chain are exactly the existing ones named by one of the first 13 stored pointers or, if there is an indirect table, by one of its words |
| BlockMap.KeptAtPositions | src/src/ext4_block.c:100-211 | A reference is kept exactly if it stands at some position of the block map, with the pointer stored there and the logical index and kind of the position, names an existing block, and no earlier position names it |
| BlockMap.TraversalAccounting | src/src/ext4_block.c:159-215 | For a block-mapped file, references kept plus corruptions reported equal the nonzero direct pointers, plus one for the indirect table and its nonzero words, plus one for deep indirection |
| BlockMap.OtherInodes | src/src/ext4_block.c:159-189 | A file with extents counts as one corruption and keeps nothing; other kinds of inodes are passed over |
| Chain.BuildChainForInode | src/src/ext4_chain.c:61-76 | The chain of an inode is the traversal of the inode that was read; lack of memory is reported exactly when a request was refused |
| Chain.AllocatedIsMode | src/src/ext4_chain.c:215-233 | For an inode whose record can be read, appearing allocated is having a nonzero mode in the decoded record; every inode that can be loaded appears allocated |
| Chain.ChainAnalysis.FindOwner | src/src/ext4_chain.c:113-125 | The linear scan finds the first record of the block |
| Chain.ChainAnalysis.OwnerHasInode | src/src/ext4_chain.c:127-139 | The linear scan finds exactly the listed inodes |
| Chain.ChainAnalysis.AddOwnerInode | src/src/ext4_chain.c:141-166 | The inode is appended to the record exactly when it is new; it fails exactly when the list was full and the request for room was refused, and then changes nothing |
| Chain.ChainAnalysis.AddBlockOwner | src/src/ext4_chain.c:168-198 | The index afterwards is the one with the pair of block and inode filed; it fails exactly when memory was refused, and then leaves at most an empty record behind |
| Chain.ChainAnalysis.IndexChainOwners | src/src/ext4_chain.c:200-213 | The index afterwards has all references of the chain filed, in order; it fails exactly when memory was refused, and then the references before some position are filed |
| Chain.ChainAnalysis.AddChain | src/src/ext4_chain.c:90-111 | The chain is appended, unless the array was full and the request for room was refused; then nothing changes |
| Chain.ExamineInode | src/src/ext4_chain.c:242-268 | One turn of the scan loop yields the specified outcome if no request for memory was refused, and counts the inode as corrupt otherwise |
| Chain.ChainAnalysis.Record | src/src/ext4_chain.c:248-276 | Recording an outcome keeps chains, owners and corruption count in agreement with the outcomes so far; it fails exactly when memory was refused, with the chain counted but not recorded and filed at most in part |
| Chain.ChainAnalysis.Build | src/src/ext4_chain.c:235-280 | A scan that returns 0 has built exactly the chains, the index of those chains, and the corruption count of all inodes; it returns 1 only if memory was refused, and a refusal it survives is counted as a corruption |
| Chain.LoopEnds | src/src/ext4_chain.c:242-243 | The 32-bit counter of the scan passes the last inode exactly when there are fewer than 2^32 - 1 inodes |
| Ownership.OwnersInvertChains | src/src/ext4_chain.c:113-213 | The inode list filed under a block is exactly the list of inodes whose chains contain the block, in scan order |
| Ownership.RecordsAreExact | src/src/ext4_chain.c:168-198 | Each block has one record, no record is empty, and each inode list is duplicate-free and complete |
| Ownership.SharedBlocksAreExact | src/src/ext4_chain.c:341-354 | A block has a record with two or more owners exactly when two different analyzed inodes reference it |
| Ownership.SharedRecords | src/src/ext4_chain.c:333-362 | The records printed as shared are those of exactly the shared blocks, with their full owner lists |
| Ownership.Conservation | src/src/ext4_chain.c:168-213 | The owner counts over all records add up to the reference counts over all chains |
| CleanScan.ChainsShape | src/src/ext4_chain.c:242-277 | The recorded chains are analyzed inodes, each once, in increasing order |
| CleanScan.AnalysisAgrees | src/src/ext4_chain.c:235-280 | What a scan that returned 0 leaves behind: the chains are those of the analyzed inodes, none missing but those given up for lack of memory, and the owners index is their exact inverse, with duplicate-free lists, one record per block and equal totals |
| CleanScan.PositionsDiffer | src/src/ext4_block.c:191-204 | Logical index and kind together identify a position of a block map |
| CleanScan.ExamineFits | src/src/ext4_block.c:159-215 | An inode contributes no corruption exactly when its block map is supported, in range and free of repetitions, and its chain then lists exactly its blocks |
| CleanScan.InjectiveIsOneOwner | src/src/ext4_block.c:159-215 | Ownership is injective exactly if every file is supported and no two stored pointers, in block arrays or indirect tables anywhere, name one block or a block outside the filesystem |
| ScanCount.CountExactly | src/src/ext4_chain.c:242-277 | The corruption count is the number of inodes given up plus the corruptions found in the recorded chains |
| ScanCount.ExaminedExactly | src/src/ext4_chain.c:242-277 | An inode is given up exactly if its mode cannot be read, or it is in use and cannot be loaded or its indirect table is unreadable; it gets a chain exactly if it is a regular file or directory otherwise |
| ScanCount.ModeExactly | src/src/ext4_chain.c:215-233 | Whether an inode with an accepted place is in use is read from the first two bytes of its slot alone |
| CleanScan.ScanVerdict | src/src/ext4_chain.c:235-280 | The scan is clean if and only if block ownership is injective over the whole filesystem and no allocation failed |
| CleanScan.CorruptionScan | src/src/ext4_chain.c:364-400 | With no request for memory refused the scan completes, and it counts nothing and proposes no duplication exactly when block ownership is injective over the whole filesystem; a completed scan during which one was refused is never clean |
| Dir.ScanLoop | src/src/ext4_dir.c:157-178 | The record loop calls back with exactly the entries in use or corrupt, up to the first that stops it, and returns 0 exactly when none was corrupt or stopping |
| Dir.ParseDirectoryBlock | src/src/ext4_dir.c:119-182 | A block outside the filesystem or unreadable fails, one past the directory's size is skipped, any other is scanned up to its limit |
| Dir.EntryMeaning | src/src/ext4_dir.c:52-117 | What a record is parsed as, by the bytes of its header: when it ends the scan, when it is intact, and which inode, type and name it has |
| DirTiling.RecordsChained | src/src/ext4_dir.c:52-117 | On arbitrary bytes each record starts where the previous one ends, with intact names inside their records |
| DirTiling.Tiling | src/src/ext4_dir.c:68-116 | Records are aligned, inside the block, pairwise disjoint, at most limit/8 + 1 many, and add up to the limit when none is corrupt |
| DirTiling.CleanBlockTiles | src/src/ext4_dir.c:157-178 | A block scan returns 0 exactly when no record is corrupt, and its record lengths then add up to exactly the limit |
| DirTiling.DeliveredMembers | src/src/ext4_dir.c:162-167 | The callback sees exactly the parsed records that are in use or corrupt |
| DirRoundTrip.WriteDirEntry | src/tests/ext4_metadata_tests.c:162-173 | The printer stores header and name at the offset and leaves every other byte alone |
| DirRoundTrip.DirectoryRoundTrip | src/tests/ext4_metadata_tests.c:162-173 | Any list of proper records that fills the range, printed and scanned, is delivered as exactly the records in use, in order, with success |
| DirRoundTrip.PrintedBlockParses | src/src/ext4_dir.c:119-182 | A directory block that holds what the printer wrote, filling the whole block or what the directory's size leaves of it, is parsed into exactly the records in use, in order, with success |
| DirRoundTrip.OtherBlocks | src/src/ext4_dir.c:132-155 | A block outside the filesystem or unreadable makes the scan fail; one that begins past the directory's end is passed over with success |
| PrintedDirectory.PrintedListing | src/src/ext4_dir.c:313-343 | Listing a directory with direct pointers whose blocks hold printed records delivers the records in use of all its blocks, in order, and succeeds |
| PrintedDirectory.ListingRefused | src/src/ext4_dir.c:324-342 | What cannot be loaded or is no directory by its mode lists nothing and fails; a directory whose walk fails still lists the blocks that were visited |
| PrintedDirectory.EveryBlockScanned | src/src/ext4_dir.c:184-195 | A listing succeeds exactly if the scan of every visited block does, and has exactly the entries of all of them |
| PrintedDirectory.PrintedLookup | src/src/ext4_dir.c:369-402 | In such a directory a name is found exactly if a record in use carries it, and the inode found is that of a record of that name |
| PrintedDirectory.PrintedEdges | src/src/ext4_search.c:115-121 | The edges that leave such a directory are exactly its records of type 2 whose name is neither "." nor ".." |
| PrintedDirectory.PrintedNames | src/src/ext4_search.c:101-107 | A search by name reports in such a directory exactly if a record in use has that name |
| Extent.ConstantSuffices | src/src/ext4_dir.c:209-267 | With its constant of 340 entries the header check keeps every walk of every node inside the node exactly for blocks of 4092 bytes or more |
| Extent.LeafOverruns | src/src/ext4_dir.c:215-233 | The walk of a leaf runs past its end exactly when its entries do not fit and every entry that does fit is valid |
| Extent.DirectoryContained | src/src/ext4_dir.c:197-293 | Listing a directory never reads past an extent node when blocks have 4096 bytes or more, or the directory uses direct pointers, or keeps its extents in the inode |
| OverrunImage.RootOverruns | src/src/ext4_dir.c:197-267 | Images with blocks of 1024 and of 2048 bytes that open, and whose root directory makes the walk leave its node |
| OverrunImage.SmallBlocksOverrun | src/src/ext4_dir.c:197-311 | Opening a filesystem and validating its inodes keeps every directory walk inside its nodes exactly for block sizes of 4096 and more |
| Extent.VisitExtentNode | src/src/ext4_dir.c:197-267 | The walk visits exactly the specified blocks in order, scanning each, and returns 0 exactly when the specification says so |
| Extent.VisitInodeDataBlocks | src/src/ext4_dir.c:269-311 | The same for a whole inode: extent tree of depth at most 5, or direct pointers with any indirection refused |
| Extent.VisitDataBlock | src/src/ext4_dir.c:184-195 | A failing block is remembered and does not stop the walk |
| Extent.ListDirectoryInode | src/src/ext4_dir.c:313-343 | Listing delivers the entries of all visited blocks in order and succeeds exactly when every part did |
| ExtentTree.StoredWalk | src/src/ext4_dir.c:197-267 | Walking a node that stores a tree visits exactly the left-to-right expansion of the tree's extents |
| ExtentTree.WalkFlattens | src/src/ext4_dir.c:197-267 | On every image, a walk succeeds if and only if the node stores a tree whose entries lie inside their nodes, and then visits its expansion |
| PrintedTree.WrittenTreeWalks | src/src/ext4_dir.c:197-267 | A tree written out entry by entry, with 48-bit block numbers and lengths up to 32767, is walked as exactly the expansion of its extents |
| PrintedTree.ExpandMaps | src/src/ext4_dir.c:225-233 | What is visited are exactly the pairs of logical and physical block that some extent maps |
| PrintedTree.InodeTreeWalks | src/src/ext4_dir.c:269-293 | An inode whose block array holds the root of such a tree, of height at most 5, is walked as that tree |
| PrintedTree.InodeWalkRefused | src/src/ext4_dir.c:269-311 | Trees of greater height are refused, and a walk over direct pointers is refused exactly if there is any indirection |
| ExtentTree.WalkInRange | src/src/ext4_dir.c:225-233 | Every block handed to the callback exists, even when the walk fails |
| ExtentTree.DirectoryBlocksInRange | src/src/ext4_dir.c:136-139 | For every directory that can be read, all visited blocks exist and the product for their logical offset does not wrap |
| Lookup.FindEntryInDirectory | src/src/ext4_dir.c:352-402 | Lookup yields the last match that its callback was given |
| Lookup.ThroughFirst | src/src/ext4_dir.c:359-366 | Within one block the stopping callback is given exactly the first match |
| Lookup.LookupIsFirstOfLast | src/src/ext4_dir.c:184-195 | Because blocks after a match are still scanned, the result is the first match of the last block that has one |
| Lookup.LookupAgreesWithListing | src/src/ext4_dir.c:369-402 | A valid name is found exactly when the full listing delivers an intact entry of that name; the result is such an entry, and the only one if names are unique |
| Names.LookupByName | src/src/ext4_dir.c:352-402 | The same on the bytes of the names: found exactly when an intact entry's name, cut at its first zero, equals the name |
| Names.LongNames | src/src/ext4_dir.c:376-379 | Names longer than 255 bytes are refused |
| Names.MatchesMeans | src/src/ext4_dir.c:359 | An entry matches a name exactly if it is intact and its name, cut at the first zero, equals it |
| Path.CopyComponent | src/src/ext4_path.c:68-88 | The next component is split off and the cursor advances; refused exactly when the component exceeds 255 bytes |
| Path.ResolvePath | src/src/ext4_path.c:90-132 | Resolution is the fold of directory lookup over the components, with empty ones and "." dropped, from the root for absolute paths |
| Path.ComponentsJoin | src/src/ext4_path.c:109-128 | The components of p/q are those of p followed by those of q |
| Path.ResolveJoin | src/src/ext4_path.c:90-132 | For nonempty p and relative q, resolving p/q is resolving q from where p leads, including failure |
| Path.ResolveFromRoot | src/src/ext4_path.c:101-102 | With nothing before the slash the rest is resolved from the root |
| Path.ComponentsOfJoined | src/src/ext4_path.c:68-128 | Splitting a path into components undoes joining its names by slashes |
| Path.ResolveName | src/src/ext4_path.c:90-132 | A path of one name leads to the inode of the entry that lookup finds in the start, or in inode 2 if a slash precedes it, and fails if there is none |
| Path.ResolveTrivial | src/src/ext4_path.c:101-107 | The empty path and "." lead to the start, "/" to inode 2 |
| SearchSpec.ListedEntry | src/src/ext4_dir.c:107-109 | Intact entries name inodes within the inode count, and a corrupt one makes the listing fail |
| Names.DescendsMeans | src/src/ext4_search.c:115-117 | An entry is followed exactly if it is intact, of type 2, and its name, cut at the first zero, is neither "." nor ".." |
| Names.ReportsMeans | src/src/ext4_search.c:90-113 | What each of the three modes reports: intact entries of the name, intact entries of the inode, corrupt entries |
| Names.EdgeMeans | src/src/ext4_search.c:115-121 | The edges of the directory graph, by the types and names of the listed entries |
| SearchTrail.VisitKeeps | src/src/ext4_search.c:135-141 | Visiting a reachable, unvisited inode entered from the frame on top keeps the search invariant, including that the frames form a path of at most 1025 different directories from the start |
| SearchTrail.ReportKeeps | src/src/ext4_search.c:101-113 | Reporting a position for the first time keeps the search invariant |
| SearchTrail.FinishKeeps | src/src/ext4_search.c:143-149 | Closing a directory whose entries were all reported and followed keeps the search invariant, with its failure noted |
| SearchTrail.CutKeeps | src/src/ext4_search.c:130-133 | When the guard fires, the frames form a path through 1025 different visited directories, and the invariant is kept with the directory on top noted |
| SearchTrail.MissedBehindCut | src/src/ext4_search.c:115-121 | Every path to a directory that was not visited leads through one below which the guard fired |
| Search.SearchContext.SearchCallback | src/src/ext4_search.c:84-124 | The callback reports and follows its entry as the tour says, changes no other position of visited directories, and leaves the stack as it was; the trail is marked hungry exactly if memory was refused |
| Search.SearchContext.SearchInode | src/src/ext4_search.c:126-150 | A recursive call keeps the invariant, restores depth and stack, and unless memory was refused adds exactly the visits and reports of the depth-first tour from its inode; it terminates because each frame visits a new inode |
| TourLaws.DirectoryFirst | src/src/ext4_search.c:126-141 | In the tour a directory is visited before everything below it, and passed over exactly if it was visited before or lies behind the guard |
| TourLaws.EntryFirst | src/src/ext4_search.c:101-121 | In the tour an entry is reported before everything that is reported below it |
| TourLaws.EarlierEntriesFirst | src/src/ext4_search.c:143-146 | In the tour everything visited and reported at and below an entry comes before what is visited and reported at and below a later entry of the same directory |
| Search.GuardStaysSilent | src/src/ext4_search.c:130-133 | The depth guard does not fire when no path leads through more than 1024 different directories, in particular when at most 1024 inodes are reachable |
| Search.CompleteSearch | src/src/ext4_search.c:84-150 | If memory was not refused and the guard did not fire, the visited inodes are exactly the reachable ones and the matches exactly the matching entries of reachable directories, whether or not a failure was noted |
| Search.ReportedByMode | src/src/ext4_search.c:90-113 | In a complete search the reports are exactly the entries of reachable directories that the mode asks for, by name, inode number or fault |
| Search.EnteredByEntry | src/src/ext4_search.c:115-121 | Every directory visited besides the start is entered through an intact entry of type 2 other than "." and ".." in a reachable directory |
| Search.ParentNotVisited | src/src/ext4_search.c:115-117 | A directory that is only ever named ".." below the start, such as its parent, is not visited |
| Search.FarIsMissed | src/src/ext4_search.c:130-133 | A reachable directory more than 1025 directories away is never visited, and the search then notes a failure |
| Search.LargeBlocksTame | src/src/ext4_search.c:152-187 | With blocks of 4096 bytes or more no path and no search meets a walk that leaves its node |
| Search.SuccessMeansCovered | src/src/ext4_search.c:143-149 | No failure is noted exactly when the whole reachable graph was visited and every listing in it succeeded |
| Search.RunSearch | src/src/ext4_search.c:152-187 | After a run: visited inodes are reachable and distinct; unless memory was refused, the subdirectories of visited directories are visited too, except below the cuts of the guard; reports are exactly the matching entries of visited directories, each once, and in the order of the depth-first tour; with no refusal and no deep path, everything reachable is visited and reported; the return value follows the three modes |
| Crc.Crc32cUpdate | src/src/ext4_backup.c:34-54 | The bit loop computes the specified register |
| Crc.StepXor | src/src/ext4_backup.c:44-50 | A bit step is linear: the difference of two registers evolves by the same steps |
| Crc.StepsInjective | src/src/ext4_backup.c:44-50 | Bit steps lose no information |
| Crc.EqualChecksums | src/src/ext4_backup.c:34-54 | Two strings of equal length have equal checksums exactly when feeding the bits in which they differ into a zero register leaves zero |
| Crc.FeedAllIsFeedBits | src/src/ext4_backup.c:40-51 | The byte loop is feeding all bits in order, lowest bit of each byte first |
| Crc.FeedAtOnce | src/src/ext4_backup.c:40-51 | Feeding up to 32 bits is adding them to the register at once and stepping as often |
| Crc.BurstDetected | src/src/ext4_backup.c:34-54 | Every change confined to 32 consecutive bits, at any alignment, changes the checksum, whatever surrounds it |
| Crc.BurstUndetected | src/src/ext4_backup.c:46 | A change confined to 33 consecutive bits leaves the checksum alone exactly when the bits that change are the 33 coefficients of the polynomial |
| Crc.FiveBytesUndetected | src/src/ext4_backup.c:46 | As a concrete input: the five bytes of the polynomial change five zero bytes without changing the checksum |
| CrcValues.UpdateComposes | src/src/ext4_backup.c:34-54 | A checksum continued over further bytes is the checksum of all bytes together |
| CrcValues.CheckValue | src/src/ext4_backup.c:34-54 | The checksum of "123456789" from 0 is 0xE3069283, the check value of CRC-32C |
| CrcValues.Residue | src/src/ext4_backup.c:34-54 | Data followed by the four little-endian bytes of its checksum has checksum 0x48674BC7, whatever the data and the start |
| Backup.SuperblockChecksum | src/src/ext4_backup.c:56-70 | The superblock checksum is seeded with the uuid and covers all 1024 bytes with the checksum field zeroed |
| Backup.ChecksumDetectsBurst | src/src/ext4_backup.c:56-70 | A change confined to 32 consecutive bits that avoids uuid and checksum field changes the computed checksum |
| Backup.ChecksumDetectsWindow | src/src/ext4_backup.c:56-70 | So does every change within four consecutive bytes that avoids them |
| Backup.DamageBreaksSeal | src/src/ext4_backup.c:163-173 | A record whose checksum was found right is not found right after such damage; the mismatch is reported exactly when its stored checksum is not zero or the damaged feature word still asks for the check |
| Backup.ReadBackupAt | src/src/ext4_backup.c:156-195 | A record is decoded, validated and checked, or blank if it cannot be read |
| RestoreBytes.OneRun | src/src/ext4_backup.c:56-70 | The superblock checksum is that of one run over uuid, the first 1020 bytes, and four zeros |
| RestoreBytes.VerdictsExactly | src/src/ext4_backup.c:156-195 | The five verdicts on a superblock that can be read, each exactly, in terms of its bytes |
| RestoreBytes.OneSeal | src/src/ext4_backup.c:163-173 | Whatever the other bytes are, exactly one value of the checksum field is found right |
| Backup.GroupCountsAgree | src/src/ext4_backup.c:72-95 | The second copy of the group calculation agrees with the one used to open a filesystem |
| Backup.BackupOffsetIsExact | src/src/ext4_backup.c:97-131 | The guards refuse exactly the groups whose superblock would end past the largest file offset; all others get the exact offset |
| Backup.Report.Append | src/src/ext4_backup.c:133-154 | The record is appended with its position as index, unless the array was full and the request for room was refused; then nothing changes |
| Backup.Discover | src/src/ext4_backup.c:197-254 | Discovery reports lack of memory exactly when a request was refused; otherwise it succeeds exactly when the primary can be read, its group count is accepted and no backup is out of reach, and then lists exactly the groups that carry a backup, in order, numbered, readable or not |
| Sparse.IsPowerOf | src/src/ext4_backup.c:13-24 | The dividing loop accepts exactly the powers of the base |
| Sparse.HasSparseSuper | src/src/ext4_backup.c:26-32 | Accepts exactly 0 and the powers of 3, 5 and 7, 1 included |
| Sparse.SparseGroupsExact | src/src/ext4_backup.c:228-235 | The expected groups are strictly increasing and are exactly those from 1 on that carry a backup |
| Sparse.AtMostFortyFive | src/src/ext4_backup.c:228-235 | There are at most 45 of them, since group counts stay below 2^32 |
| Recovery.WritePrimary | src/src/ext4_backup.c:409-421 | An unsafe source writes nothing; otherwise a prefix of the backup's bytes lands at 1024, all of it exactly when no transfer stalled |
| Recovery.RestoreSuperblock | src/src/ext4_recovery.c:77-126 | A backup is written exactly when discovery succeeds, the selected backup is safe, and writing is permitted and confirmed; every byte of the image afterwards is given; the restore succeeds exactly when the write does not stall, or in a preview; the primary is then the backup's superblock |
| RestoreBytes.SelectedExactly | src/src/ext4_recovery.c:77-104 | There is a backup to write exactly if the primary can be read and measured, no backup group is out of reach, and the superblock at the place of the indexed group can be read, has the magic and validates, whatever its checksum; its bytes are the ones written |
| Recovery.VerifyReads | src/src/ext4_recovery.c:111-116 | After a complete write the primary reads back as the bytes written, so verification cannot fail |
| Recovery.RestoreFrame | src/src/ext4_io.c:112-140 | Complete or not, storing a backup changes only a prefix of bytes 1024 to 2047, which become the backup's |
| Recovery.RestoredPrimary | src/src/ext4_super.c:50-100 | If those 1024 bytes are the backup's, the primary decodes to exactly its superblock, with the same checksum verdict, and passes structural validation |
| Recovery.RestoredOpens | src/src/ext4_super.c:150-197 | A restored image opens exactly when the group count of the backup is accepted, the one check that a restore does not make |
| Recovery.SafeNeedNotOpen | src/src/ext4_super.c:32-48 | It is not always accepted: a safe backup with one-block groups and 2^32 blocks or more leaves an image that does not open |

## Left out

- Chain.ChainAnalysis.Build: asks for fewer than 2^32 - 1 inodes, because the 32-bit loop counter of the source never passes a count of 2^32 - 1 and the loop does not end (`Chain.LoopEnds`).
- Extent.ListDirectoryInode: asks that the walk does not overrun an extent node, because the C program reads past its buffer there (`OverrunImage.RootOverruns` has the image, `OverrunImage.SmallBlocksOverrun` the exact limit); so do `Extent.VisitExtentNode` and `Extent.VisitInodeDataBlocks` for the node or inode they are given.
- Lookup.FindEntryInDirectory: asks the same of the directory it looks into.
- Path.ResolvePath: asks the same of the directories that the path leads through.
- Search.RunSearch: asks the same of those and of the directories that can be reached from where the path leads.
- Chain.ChainAnalysis.Record: the corruption count is a natural number, so the overflow of the C `int` is not modelled.
- Io.Disk.ReadExactAt: read errors are tied to byte positions and persistent; transient ones, and the retry on an interrupted call, are not modelled.
- Fixed-size work buffers always allocate, except the indirect table of the traversal; growing an array may fail everywhere.
- Nested storage of the growable arrays: they are sequences held in fields with their capacities, so aliasing and copying during `realloc` are not modelled.
- `walk_inode` and `walk_callback` of ext4_path.c: the same traversal as the search, with text output instead of matches.
- The wrappers around `run_search` that check the needle's length, `parse_index` and the confirmation prompt (a boolean here).
- All printed text; matches, shared records and backup reports are returned values instead.
- Inode fields that no later stage looks at (owner, times, permissions, link count), and the texts of corruption messages (an enumeration here).
- Double and triple indirect blocks and extents in the ownership analysis, which the source declares out of scope and counts as corruptions; the model counts them the same way.
- Opening and closing files, `compare_one` and the report printers of ext4_backup.c.
- `ui.c`, `main.c`, `utils.c`, `editor.c`, `errors.c` and the POSIX parts of `analyzer.c`: no decision about image metadata.
