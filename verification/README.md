# btrfs-forensic: a verified model

A Dafny model of the offline core of this btrfs reader and auditor: the byte-level
decoders, the two worklist traversals over untrusted tree blocks, the whole-image
audit, deleted-file recovery, SHA-256 and CRC32c.  Check it with
`dafny verify dfyconfig.toml`.

## How it is built

Each loop that builds or changes something is a method; its `ensures` ties the result,
or the new state, to a specification function, and the lemmas are about those
functions.  State the source changes in place stays in place: the chunk map and the
audit report are classes; the leaf writer, the chunk writer, the reseal and SHA-256
work on arrays.

| file | what it models |
|---|---|
| Bytes, Words, Wrappers, Multiples | little-endian readers, byte-to-word conversion, results and errors, remainders of multiples |
| Crc, BitBursts | CRC32c in bitwise form (section 12.1 of RFC 3720), superblock and node checksum status, the test suite's reseal |
| SysChunks, Nodes, NodePrinting, LeafWriter, Superblocks | the record codecs and their writers |
| ChunkMaps, ChunkWalk, EmptyMaps, GraphWalks, WrittenMaps | address translation, the chunk-tree walk over trees and over any graph, when it yields nothing or fails, and the writer with the walk |
| FsTrees, Records | directories, paths, inode references, extended attributes |
| Lzo, Extents, FileMeaning | LZO framing, extent decoding, file assembly and what it means |
| Backups, Sweeps, SweepReach, Orphans, Audits | root backups, the checksum sweep, the orphan scan, the audit |
| Tampering, WrittenSupers, WrittenImages | what the audit sees of a rewritten block, and whole images written out: a clean one, tampered ones, and those on which code and comments part |
| Recovery, RecoveryMeaning | the copy-on-write diff and what it recovers |
| Sha256, Primes | sections 3.2, 4.1.2, 4.2.2, 5.1.1, 5.2.1, 5.3.3 and 6.2.2 of FIPS 180-4 |

The strongest statements, each over every input it names:

- `ChunkWalk.WalkRefinesRecursion`: the explicit-stack walk that translates its own
  pointers through the map it is still building equals the plain recursive traversal;
  `GraphWalks.GraphWalked` says what it returns on any graph, shared and cyclic ones included.
- `SweepReach.SweepFinishes`, `SweepSound`, `SweepComplete`: the budgeted sweep finishes
  exactly within a counted bound, and then reports exactly the reachable corrupt nodes.
- `Audits.AuditExact`, `CleanImage`: what a report, and an empty report, says about an image.
- `RecoveryMeaning.RecoveryExact`, `OneDeletion`, `UnlinkUndone`: exactly what recovery returns,
  when a diff gives back one file alone, and that it undoes an unlink.
- `FileMeaning.ContiguousFileMeaning`, `PlacedIffContiguous`, `ItemOrderIrrelevant`: every byte
  of an assembled file, and when assembly can be read that way.
- `LeafWriter.LeafRoundTrip`, `NodePrinting.NodeReprint`, `Lzo.FrameRoundTrip`, `FrameStops`,
  `SysChunks.ArrayReprint`, `Records.RefsReprint`: printer and parser in both directions.
- `Tampering.TamperAudited`, `Audits.SuperblockTamperReported`: which rewrites of a node
  and of the superblock the next audit reports, from bytes to report.
- `EmptyMaps.EmptyMapExactly`, `RootNodeErrorExactly`: for every image, when the walk yields
  nothing and when it fails.
- `Sha256.Sha256Hex` against the recursive standard, with the constants themselves checked;
  `Crc.BurstTamper` and `BitBursts.BitBurstDetected`.

## Conventions

- Bytes are integers below 256, fields are numbers in their unsigned range.  The checked
  64-bit sums of address translation are written out against 2^64.
- A `usize` sum that is only the end of a slice is unbounded here.  The source saturates or
  clamps it; the two differ only past 2^64, where no slice exists.
- The external decoders, zlib, zstd and LZO1X, are function parameters.  Only the bound on
  a decompressed extent's length assumes anything of them: that the two streams respect
  their read cap.
- `extents.sort_by_key` is a library call, modelled by the function `Extents.Sorted`;
  `FileMeaning.StableOrderUnique` shows any stable sort gives the same list.
- Error texts are constructors; the numbers an error carries are kept.

## Where the code and its comments differ

The model follows the code.  Each point has its exact condition and an input.

- `ChunkMap::logical_to_physical` answers nothing when an overflowing entry precedes the
  match, whereas the bootstrap's `find_map` goes on (`ChunkMaps.LookupIsFirstCover`,
  `OverflowHidesChunk`; `BootstrapsAgree`, `BootstrapsDisagree`).
- A failed bootstrap is always loud, but `walk` can still return an empty map
  (`EmptyMaps.EmptyMapExactly`, `WrittenImages.WalkIsEmpty`).
- The error naming the chunk root's node is raised for any address that leaves the image
  while the map is empty (`EmptyMaps.RootNodeErrorExactly`, `WrittenImages.StrayChildNamedRoot`).
- File assembly ignores each extent's own offset once sorted, so a gap in the middle is not
  zero-filled (`FileMeaning.PlacedIffDeclared`, `GapIsNotFilled`).
- A PREALLOC extent with a nonzero address is read from disk like a regular one
  (`FileMeaning.DiskExtentZeros`, `PreallocReadsDisk`).
- Three of the LZO loop's breaks described as unreachable are reachable (`Lzo.BreaksExactly`,
  `FrameStops`, `BreaksReached`), and a header may be read past the declared total
  (`Lzo.FrameRoundTrip`, `ShortPadLeaks`).
- A directory listing is de-duplicated by name and child, not by name alone
  (`FsTrees.NamesListedOnce`, `NameListedTwice`).
- The sweep's self-reference filter is said not to hide a tamper because the checksum leaves
  the header's address out.  It covers it, and rewriting it hides the node
  (`Tampering.ByteTamperIsReported`, `BytenrEscapes`).
- A reported node offset is physical only where the walked map translates the address or the
  bootstrap maps it to itself (`SweepReach.OffsetIsPhysical`, `WrittenImages.WrongOffsetReported`).
- The backup check is described as finding backup roots that do not read.  It compares the tree
  root's address with the image length (`Backups.CheckAgainstReading`,
  `WrittenImages.UnreadableRootPasses`, `ReadableRootFlagged`) and never looks at the FS root
  (`Backups.FsRootNeverCompared`, `WrittenImages.UnreadableFsRootPasses`).
- In `recover_deleted` the live FS_TREE root may fail to read, because locating it does not
  read it (`RecoveryMeaning.LiveRootMayNotRead`, `WrittenImages.LiveRootUnreadable`).

## Model

| member | source | states |
|---|---|---|
| Bytes.ReadField | core/src/bytes.rs:11-38 | the zeroed local array ends up holding the field's bytes when the whole range is present and zeros otherwise, for any width |
| Bytes.LeValueOfBytes | core/src/bytes.rs:21-38 | a number that fits the width, written little-endian, is the number read back |
| Bytes.LeBytesOfValue | core/src/bytes.rs:21-38 | any bytes are the little-endian form of the number they read as |
| Bytes.FieldInSlice | core/src/bytes.rs:21-44 | a reader applied inside a known slice of a buffer sees exactly that slice's bytes |
| Crc.Crc32cIscsi | core/tests/node.rs:403-416 | the bit loop computes the CRC32c register recursion with initial value and final complement of all ones |
| Crc.BurstDetected | core/src/crc.rs:59-66 | replacing at most four consecutive bytes by different ones always changes the checksum, wherever they stand |
| Crc.AbsorbInjective | core/src/crc.rs:59-66 | absorbing the same bytes never merges two different registers |
| Crc.DigestInjective | core/src/crc.rs:79-100 | two checksums with equal stored bytes are equal |
| Crc.CoveredBurstFails | core/src/crc.rs:79-100 | a verified block rewritten in up to four consecutive covered bytes no longer verifies |
| Crc.BurstTamper | core/src/crc.rs:79-100 | any rewrite of up to four bytes of a verified block keeps it verified if and only if it changes no byte of the digest or the covered range |
| BitBursts.BitBurstDetected | core/src/crc.rs:59-66 | any change confined to thirty-two consecutive bits, at any bit offset and so over up to five bytes, changes the checksum |
| BitBursts.CoveredBitBurstFails | core/src/crc.rs:79-100 | a verified block rewritten within thirty-two consecutive bits of its covered range no longer verifies |
| Crc.SingleByteTamper | core/src/crc.rs:79-100 | changing one byte of a verified block keeps it verifying if and only if the byte lies at 4..32 or past the covered range |
| Crc.FixNodeCrc | core/tests/node.rs:398-401 | writes in place the digest of everything past the checksum field, and nothing else |
| Crc.ResealVerifies | core/tests/node.rs:398-401 | a resealed block always verifies, keeps every byte past the digest, and is unchanged if it verified already |
| SysChunks.ParseArray | core/src/chunk.rs:141-208 | the two nested cursor loops yield the entries that fit the clamped region, one after the other |
| SysChunks.CollectStripes | core/src/chunk.rs:177-192 | the inner loop yields the entry's stripes in order |
| SysChunks.ArrayRoundTrip | core/src/chunk.rs:141-208 | parsing an encoded list of entries gives the list back, whatever surrounds it in the block |
| SysChunks.ArrayReprint | core/src/chunk.rs:141-208 | for arbitrary bytes the parsed entries print back to exactly the bytes consumed, each holds as many stripes as it declares, and what is left starts no entry that fits |
| SysChunks.SmallerSizeIsPrefix | core/src/chunk.rs:145-155 | the result for a smaller declared size is a prefix of the result for a larger one |
| Nodes.ParseItems | core/src/node.rs:327-343 | yields the item headers at their strides, as many as declared and as the block can hold |
| Nodes.ParseKeyPtrs | core/src/node.rs:346-361 | yields the key pointers at their strides, as many as declared and as the block can hold |
| Nodes.ParseNode | core/src/node.rs:246-274 | parses header, checksum status and body, or reports a block shorter than the header |
| Nodes.ParseChunk | core/src/node.rs:166-195 | parses the chunk's fixed fields and as many stripes as are declared and present |
| Nodes.CountsBounded | core/src/node.rs:327-361 | the items or pointers of any block never outgrow it, whatever count it declares |
| NodePrinting.PointersRoundTrip | core/src/node.rs:346-361 | an interior block holding a printed list of key pointers parses to exactly that list |
| NodePrinting.HeaderReprint | core/src/node.rs:96-125 | the parsed header prints back to the block's first 101 bytes |
| NodePrinting.NodeReprint | core/src/node.rs:246-274 | for arbitrary blocks the header and the whole table of items or pointers print back to the block's prefix |
| Superblocks.SuperblockTamper | core/src/superblock.rs:132-168 | any rewrite of up to four bytes of a verified superblock is seen if and only if it leaves the magic and checksum type zero and either keeps the covered length and changes a guarded byte, or sets one that covers nothing, or sets one over which the stored digest is wrong |
| Superblocks.SectorSizeSeen | core/src/superblock.rs:161-168 | rewriting the sector size of a verified superblock to 32 or less is always seen |
| Superblocks.ChecksumTypeEscapes | core/src/superblock.rs:156-165 | rewriting the checksum type of a verified superblock leaves it parseable with no checksum status |
| Superblocks.MagicEscapes | core/src/superblock.rs:136-142 | rewriting a byte of the magic makes the superblock unparseable |
| LeafWriter.WriteItem | core/tests/node.rs:365-374 | writes one header and its data in place and changes no other byte |
| LeafWriter.BuildLeaf | core/tests/node.rs:353-377 | the in-place writer with its moving data tail produces the sealed leaf with every item filled in |
| LeafWriter.AllInPlace | core/tests/node.rs:362-374 | after writing, every header and every data run is intact: forward headers and backward data never overlap |
| LeafWriter.LeafRoundTrip | core/src/node.rs:246-300 | for any items whose headers and data fit, parsing the built leaf yields exactly the (key, data) list, verifies, and keeps address, owner and count |
| LeafWriter.ChunkItem | core/tests/node.rs:380-394 | the in-place chunk writer produces header, sixteen-bit stripe count and stripes |
| LeafWriter.ChunkRoundTrip | core/src/node.rs:166-195 | a written chunk reads back with all its stripes if and only if their number fits sixteen bits |
| LeafWriter.ChunkLeafRoundTrip | core/src/node.rs:316-321 | a leaf of chunk items yields exactly the chunks written, in order |
| ChunkMaps.LookupIsFirstCover | core/src/node.rs:403-414 | the lookup equals "first sound chunk covering the address" if and only if no overflowing entry stands before a later answer |
| ChunkMaps.OverflowHidesChunk | core/src/node.rs:405 | a concrete map whose overflowing first entry hides a chunk that covers the address |
| ChunkMaps.AppendStable | core/src/node.rs:403-414 | a successful lookup never changes when more chunks are appended |
| ChunkMaps.OrderIndependent | core/src/node.rs:403-414 | over non-overflowing, pairwise disjoint chunks the answer does not depend on entry order |
| ChunkMaps.OneToOneIffNoCollisions | core/src/node.rs:403-414 | over such chunks the lookup is injective per device if and only if no two first-stripe ranges share a byte |
| ChunkMaps.BootstrapsAgree | core/src/node.rs:520-525 | the map form and the find_map form of the bootstrap agree at an address if and only if no stopping chunk precedes the answer |
| ChunkMaps.BootstrapsDisagree | core/src/node.rs:520-525 | a system-chunk array, as bytes on disk, for whose parsed chunks `find_map` answers and the map form does not |
| ChunkMaps.SoundBootstrapsAgree | core/src/chunk.rs:121-130 | they are equal everywhere when every bootstrap chunk has a stripe and no sum overflows |
| ChunkMaps.ReadFails | core/src/node.rs:512-543 | reading a node fails if and only if the address has no place, its block leaves the image, or the node size is below 101 |
| ChunkWalk.ChunkMap.AddFromNode | core/src/node.rs:389-397 | appends the node's chunk entries, in order, to the map's own |
| ChunkWalk.ChunkMap.LogicalToPhysical | core/src/node.rs:403-414 | the scan returns the address map's answer |
| ChunkWalk.SeedBoot | core/src/node.rs:432-439 | the bootstrap map holds one entry for each superblock chunk, in order |
| ChunkWalk.Walk | core/src/node.rs:430-500 | the explicit-stack traversal returns a fresh map with the specified entries, or the specified error |
| ChunkWalk.WalkVisits | core/src/node.rs:449-497 | over a forest the image holds the walk gathers the leaves of the first `budget` nodes in right-to-left pre-order |
| ChunkWalk.WalkRefinesRecursion | core/src/node.rs:430-500 | for a represented tree whose chunks agree with the bootstrap on its addresses, `walk` equals the recursive traversal when there are at most 4096 occurrences, and its first 4096 otherwise |
| ChunkWalk.BootstrapFailureIsLoud | core/src/node.rs:460-471 | the bootstrap error is returned if and only if the bootstrap does not translate the chunk root |
| ChunkWalk.TinyNodesGiveEmptyMap | core/src/node.rs:486-488 | with a node size below 101 the result is an empty map if and only if the root block lies in the image |
| EmptyMaps.EmptyMapExactly | core/src/node.rs:430-500 | for any image the result is an empty map if and only if the bootstrap places the root and no address the bootstrap traversal visits leaves the image or is a leaf with chunks |
| EmptyMaps.RootNodeErrorExactly | core/src/node.rs:475-483 | the `chunk_root node` error is returned if and only if some visited address, the root or not, leaves the image before any leaf with chunks; it carries the first such address's end |
| EmptyMaps.EmptyTreeMap | core/src/node.rs:430-500 | over a represented tree the map is empty if and only if none of the first 4096 nodes visited is a leaf with chunks |
| GraphWalks.GraphVisits | core/src/node.rs:449-497 | from any stack and map, over any graph whose chunks agree with the bootstrap on what is visited, the walk gathers the chunks of the addresses the bootstrap traversal visits, or fails at the first address outside the image met with an empty map |
| GraphWalks.GraphWalked | core/src/node.rs:430-500 | for any such image, cyclic or not, `walk` returns the chunks of the first 4096 addresses visited, or exactly one of its two errors |
| WrittenMaps.WrittenChunksWalked | core/src/node.rs:430-500 | chunks written as the chunk root's leaf are exactly the map the walk returns |
| WrittenSupers.SuperParsed | core/tests/node.rs:421-440 | a written superblock reads back with its roots, node size and chunk, and a checksum that verifies |
| WrittenSupers.OneBackup | forensic/src/lib.rs:356-371 | a written superblock stores its one backup in the first slot and nothing in the other three |
| WrittenImages.WalkIsEmpty | core/src/node.rs:427-430 | every written image whose chunk-root leaf has no items walks to an empty map |
| WrittenImages.StrayChildNamedRoot | core/src/node.rs:475-483 | a concrete image whose readable chunk root points outside the image fails naming the chunk root's node |
| FsTrees.ListDir | core/src/fstree.rs:334-354 | the listing loop yields the directory's entries without repeats of (name, child) |
| FsTrees.DirItemRoundTrip | core/src/fstree.rs:362-384 | a written directory item reads back as its entry, whatever data follows the name |
| FsTrees.DeduplicationExact | core/src/fstree.rs:344-349 | the listing repeats no (name, child) pair and loses none |
| FsTrees.DeduplicationKeepsLookups | core/src/fstree.rs:574-578 | de-duplicating never changes which child a name finds first |
| FsTrees.NamesListedOnce | core/src/fstree.rs:327-329 | each name is surfaced once if and only if no name has two children among the items |
| FsTrees.NameListedTwice | core/src/fstree.rs:327-329 | two written directory items giving one name to two children make the directory list the name twice |
| FsTrees.FindEntry | core/src/fstree.rs:574-577 | finds the first entry with the name |
| FsTrees.ReadByPath | core/src/fstree.rs:566-583 | the descent loop resolves the path's nonempty components from the root directory, stopping at a missing name, a missing inode or a non-directory |
| FsTrees.PathComposes | core/src/fstree.rs:566-583 | resolving `p`, slashes, `q` is resolving `q` from the inode `p` resolves to |
| FsTrees.SlashesIgnored | core/src/fstree.rs:562-564 | leading, trailing and repeated slashes never change the result |
| FsTrees.ComponentsOfPath | core/src/fstree.rs:570 | names joined into a path come apart into the same names |
| FsTrees.CanonicalPath | core/src/fstree.rs:566-583 | every path resolves as its canonical spelling does |
| Records.ListInodeRefs | core/src/fstree.rs:505-529 | collects the references packed in every matching item, in order |
| Records.CollectRefs | core/src/fstree.rs:517-526 | the cursor loop over one item yields its records up to the first malformed one |
| Records.RefsRoundTrip | core/src/fstree.rs:534-557 | printed references with nonempty names parse back, and the walk goes on with what follows them |
| Records.RefsReprint | core/src/fstree.rs:505-557 | for arbitrary bytes the parsed references print back to the consumed prefix and the rest starts no valid record |
| Records.ListXattrs | core/src/fstree.rs:409-433 | collects the attributes packed in every matching item, in order |
| Records.CollectXattrs | core/src/fstree.rs:419-430 | the cursor loop over one item yields its records up to the first malformed one |
| Records.XattrsRoundTrip | core/src/fstree.rs:439-464 | printed attributes with nonempty names parse back, and the walk goes on with what follows them |
| Records.XattrsReprint | core/src/fstree.rs:409-464 | for arbitrary bytes the parsed attributes print back to the consumed prefix and the rest starts no valid record |
| Lzo.DecompressLzo | core/src/extent.rs:388-451 | the cursor loop decodes the framed blocks up to `cap`, or fails at the first block the codec refuses, and stops for the reason specified |
| Lzo.HeaderInsideSector | core/src/extent.rs:403-413 | with sectors of at least four bytes no segment header crosses a sector boundary |
| Lzo.DecodedBounded | core/src/extent.rs:449-450 | the frame decoder never returns more than `cap` bytes, for any codec and any input |
| Lzo.FrameRoundTrip | core/src/extent.rs:388-451 | a frame with `pad` extra zero bytes scans to exactly its segments if and only if the pad cannot be taken for a header, and then decodes to the first `cap` plaintext bytes |
| Lzo.TightFrameRoundTrip | core/src/extent.rs:388-451 | for any nonempty segments and any trailing bytes, decoding a frame gives the first `cap` bytes of the plaintexts |
| Lzo.ShortPadLeaks | core/src/extent.rs:410-417 | a concrete frame whose one-byte pad makes the decoder read a header past the declared total |
| Lzo.BreaksExactly | core/src/extent.rs:403-427 | at any cursor `pad` bytes short of the total, the padding, slice and zero-length breaks are each taken if and only if the pad and the bytes behind it have the stated lengths and contents |
| Lzo.FrameStops | core/src/extent.rs:402-427 | decoding a padded frame ends in each of the three breaks if and only if the output is not full by then and the pad has the stated length |
| Lzo.BreakLosesNothing | core/src/extent.rs:402-451 | whichever break ends a padded frame, everything framed has been decoded |
| Lzo.BreaksReached | core/src/extent.rs:403-427 | three concrete frames, one for each break |
| Extents.DecompressExtent | core/src/extent.rs:297-334 | dispatches on the codec after the decompression-bomb check, and never returns more than `ram_bytes` when the streams respect their cap |
| Extents.DecompressionBounded | core/src/extent.rs:297-334 | no extent decompresses to more than `ram_bytes` when the external streams respect their read cap |
| Extents.ReadRegularExtent | core/src/extent.rs:227-284 | reads the disk range or the decompressed window, never more than `num_bytes`, with each of the four errors in order |
| Extents.ReadFileFromLeaf | core/src/extent.rs:125-219 | the loop over sorted extents yields the specified content, cut or zero-extended to the size, or the first error |
| FileMeaning.SortIsStable | core/src/extent.rs:149 | the model's sort orders by file offset and keeps equal offsets in leaf order |
| FileMeaning.StableOrderUnique | core/src/extent.rs:149 | there is only one stable order, so any stable sort gives it |
| FileMeaning.ReadPlacesBytes | core/src/extent.rs:151-219 | a successful read has the inode's size; each extent's bytes stand where the bytes before it end and are the bytes its kind defines; the rest is zero |
| FileMeaning.PlacedIffContiguous | core/src/extent.rs:161-206 | every extent stands at its own file offset if and only if the extents are contiguous from zero |
| FileMeaning.PlacedIffDeclared | core/src/extent.rs:161-206 | for holes and uncompressed extents that read, every extent stands at its own offset if and only if the item headers alone declare them contiguous |
| FileMeaning.ContiguousFileMeaning | core/src/extent.rs:125-219 | for contiguous extents byte `p` is the byte the covering extent defines (inline, disk, decompressed window, hole zero), or zero past the last |
| FileMeaning.FirstErrorWins | core/src/extent.rs:161-206 | the first failing extent in offset order decides the error |
| FileMeaning.GapIsNotFilled | core/src/extent.rs:161-183 | a concrete leaf with a hole between two extents reads as their bytes side by side |
| FileMeaning.PreallocIsRegular | core/src/extent.rs:172-194 | a PREALLOC extent contributes exactly what a regular extent with the same fields does |
| FileMeaning.DiskExtentZeros | core/src/extent.rs:172-194 | a successful uncompressed disk or PREALLOC extent gives zeros if and only if its address is zero or its stored range is |
| FileMeaning.PreallocReadsDisk | core/src/extent.rs:172-194 | a concrete preallocated byte that reads as what lies on disk |
| FileMeaning.ItemOrderIrrelevant | core/src/extent.rs:132-149 | permuting a leaf's items never changes a file with one inode item and distinct extent offsets |
| Backups.Report.Push | forensic/src/lib.rs:307-309 | appends one anomaly to the report |
| Backups.ParseBackupRoots | forensic/src/lib.rs:356-371 | yields the slots wholly inside the block, four at most, read through each slot's own slice |
| Backups.SlotReprint | forensic/src/lib.rs:359-368 | a slot's two root-and-generation pairs print back to the bytes they were read from |
| Backups.CheckBackupRoots | forensic/src/lib.rs:377-405 | appends exactly the divergences of the slots, in slot order |
| Backups.DivergencesJustified | forensic/src/lib.rs:377-405 | only inconsistent slots are reported, each once, in slot order, for the first of the three reasons that applies |
| Backups.DivergencesComplete | forensic/src/lib.rs:377-405 | every slot with a newer generation or a tree root past the image is reported |
| Backups.CheckAgainstReading | forensic/src/lib.rs:107-109 | a slot is reported exactly when its tree or FS root is nonzero and unreadable, if and only if being inconsistent agrees with one of the two having no readable place |
| Backups.FsRootNeverCompared | forensic/src/lib.rs:377-405 | rewriting a slot's FS root in the superblock changes no divergence |
| Audits.DivergenceInAudit | forensic/src/lib.rs:324-325 | whatever the sweep costs, an audit's backup anomalies are exactly those the stored slots justify |
| WrittenImages.UnreadableRootPasses | forensic/src/lib.rs:395-403 | images whose stored backup tree root does not read and whose audit reports no backup |
| WrittenImages.UnreadableFsRootPasses | forensic/src/lib.rs:377-405 | images whose stored backup FS root does not read and whose audit reports no backup |
| WrittenImages.ReadableRootFlagged | forensic/src/lib.rs:395-403 | images whose stored backup tree root reads and whose audit reports it as past the end |
| Backups.CheckRootReachable | forensic/src/lib.rs:334-352 | appends a geometry anomaly exactly for a nonzero root that does not read |
| Sweeps.SeedStack | forensic/src/lib.rs:414-429 | the stack starts with the nonzero live roots, then each backup's nonzero roots |
| Sweeps.Inspect | forensic/src/lib.rs:442-471 | checks one new address and returns the pointers to follow |
| Sweeps.SweepNodeCrcs | forensic/src/lib.rs:410-473 | appends exactly what the budgeted depth-first search finds |
| SweepReach.SeedsExact | forensic/src/lib.rs:414-429 | an address is a seed if and only if it is a nonzero live or backup root |
| SweepReach.ChildrenExact | forensic/src/lib.rs:465-471 | an address is followed if and only if it is a nonzero pointer of a genuine interior node |
| SweepReach.SweepSound | forensic/src/lib.rs:410-473 | every report is a self-referencing, same-filesystem node reachable from a seed that fails its checksum, and no address is reported twice |
| SweepReach.SweepFinishes | forensic/src/lib.rs:431-436 | the search empties its stack if and only if seeds plus child pointers of reachable genuine nodes total at most 8192 |
| SweepReach.SweepComplete | forensic/src/lib.rs:410-473 | within that bound a node is reported if and only if it is reachable and corrupt |
| SweepReach.OffsetIsPhysical | forensic/src/lib.rs:455-457 | the reported offset is where the node was read if and only if the walked map translates it or the bootstrap maps it to itself |
| WrittenImages.WrongOffsetReported | forensic/src/lib.rs:455-463 | a concrete image whose audit reports the corrupt node lying at 131072 at offset 4096 |
| Tampering.TamperIsReported | forensic/src/lib.rs:442-463 | rewriting up to four bytes of a verified node that is still swept is reported if and only if no byte at 0x20..0x38 changes and some byte below 4 or from 0x38 on does |
| Tampering.ByteTamperIsReported | forensic/src/lib.rs:442-463 | one byte rewritten in such a node is reported if and only if it lies below 4 or from 0x38 on |
| Tampering.BytenrEscapes | forensic/src/lib.rs:449-454 | a verified node whose own address has its first byte rewritten is never reported |
| Tampering.StaysReachable | forensic/src/lib.rs:465-471 | a rewrite inside one node that misses every other reachable node and the superblock leaves that node reachable |
| Tampering.LeafKeepsBudget | forensic/src/lib.rs:431-436 | a rewrite inside a leaf that keeps its level byte changes neither what the sweep reaches nor what it costs |
| Tampering.SceneCarries | forensic/src/lib.rs:297-316 | a rewrite that misses the superblock and every block the chunk walk reads leaves the superblock and the map the audit uses unchanged |
| Orphans.CollectFsRoots | forensic/src/lib.rs:483-494 | the live FS_TREE root, then each new nonzero backup FS_TREE root |
| Orphans.ScanOrphans | forensic/src/lib.rs:482-517 | appends one anomaly for each new orphaned inode, first sighting first |
| Orphans.OrphanScanExact | forensic/src/lib.rs:482-517 | an inode is reported if and only if a scanned FS_TREE leaf holds an orphan item for it, and only once |
| Audits.AuditImage | forensic/src/lib.rs:292-331 | runs the checks in order over one report; an image without a readable superblock yields nothing |
| Audits.AuditSound | forensic/src/lib.rs:292-331 | whatever the budget, every anomaly reported is a fact about the image |
| Audits.AuditExact | forensic/src/lib.rs:292-331 | within the sweep's bound an anomaly is reported if and only if the fact it states holds |
| Audits.CleanImage | forensic/src/lib.rs:290-331 | within the sweep's bound the audit is empty if and only if the image is clean in all five respects |
| WrittenImages.WrittenImageClean | forensic/src/lib.rs:290-331 | written images that are clean in all five respects and whose audit is empty |
| Tampering.TamperAudited | forensic/src/lib.rs:292-331 | end to end: a reachable verified node, leaf or interior, rewritten in up to four bytes away from everything else the audit reads, is in the next audit's report if and only if the rewrite is visible, provided that audit's sweep stays within its budget |
| Tampering.LeafTamperAudited | forensic/src/lib.rs:292-331 | for a leaf whose level byte is kept it is enough that the image itself is swept within the budget |
| WrittenImages.ChangedByteReported | forensic/src/lib.rs:292-331 | a concrete image one changed byte of which the next audit reports as the root block's mismatch |
| Audits.SuperblockTamperReported | forensic/src/lib.rs:297-310 | any rewrite of up to four bytes of a verified superblock is reported as a mismatch if and only if it leaves the magic and checksum type zero and betrays itself over the range it leaves covered |
| Audits.SectorSizeReported | forensic/src/lib.rs:297-310 | rewriting the sector size of a verified superblock to 32 or less is always reported |
| WrittenImages.ChangedSuperReported | forensic/src/lib.rs:297-310 | written images one changed superblock byte of which the next audit reports |
| Audits.ChecksumTypeSilencesAudit | forensic/src/lib.rs:305-310 | rewriting the checksum type of a verified superblock is never reported as a mismatch |
| Audits.MagicSilencesAudit | forensic/src/lib.rs:297-303 | rewriting the first byte of the magic empties the audit |
| Recovery.DirNames | forensic/src/lib.rs:714-734 | the name map answers, for every inode, the first name the leaf's directory items give it |
| Recovery.RecoverDeletedFromLeaves | forensic/src/lib.rs:570-626 | the diff loop yields the carved files in old-leaf order |
| Recovery.RecoverDeleted | forensic/src/lib.rs:639-673 | the backup loop yields the merged diffs, or nothing when the superblock or the live FS_TREE does not read |
| RecoveryMeaning.DiffExact | forensic/src/lib.rs:570-626 | the result is, in old-leaf order, exactly the files of the positions that hold a deleted user inode with an extent |
| RecoveryMeaning.DiffInodes | forensic/src/lib.rs:588-607 | an inode is recovered if and only if the old FS_TREE leaf has it at 257 or above with an extent and the current leaf does not have it |
| RecoveryMeaning.SelfDiffEmpty | forensic/src/lib.rs:598-600 | a leaf diffed with itself yields nothing |
| RecoveryMeaning.CarvedSize | forensic/src/lib.rs:609-612 | nonempty content has the recorded size if and only if the inode's first inode item records that size |
| RecoveryMeaning.RecoveredSizes | forensic/src/lib.rs:609-623 | with unique inode items content is empty or exactly `size` bytes |
| RecoveryMeaning.OneDeletion | forensic/src/lib.rs:556-626 | diffing two generations of an FS_TREE leaf gives back one inode and nothing else if and only if it alone of the old leaf's user files with extents has lost its inode item, whatever else changed |
| RecoveryMeaning.DeletionUndone | forensic/src/lib.rs:556-626 | what comes back then has the name the old leaf gives it and the content the old leaf reads as |
| RecoveryMeaning.UnlinkUndone | forensic/src/lib.rs:556-626 | unlinking a user file, its items and the directory entries naming it gone and other items' data rewritten, and diffing gives back that file, no other, with its old name and content |
| RecoveryMeaning.RecoveryExact | forensic/src/lib.rs:639-673 | over a whole image inodes are distinct, a file is recovered if and only if some other backup generation holds it and the current leaf does not, and its record is the lowest such slot's |
| RecoveryMeaning.NothingLiveRecovered | forensic/src/lib.rs:598-600 | no inode of the current leaf is ever recovered |
| RecoveryMeaning.LiveRootMayNotRead | forensic/src/lib.rs:650-655 | when the root tree names the live FS_TREE root, that root fails to read if and only if its address has no place or its block leaves the image |
| WrittenImages.LiveRootUnreadable | forensic/src/lib.rs:653-655 | a concrete image that takes the branch called unreachable and recovers nothing |
| Sha256.RoundConstants | forensic/src/lib.rs:756-821 | every round constant is the first 32 bits of the fraction of the cube root of its prime |
| Primes.TableIsPrimes | forensic/src/lib.rs:756-821 | the table those primes are read from ascends and holds exactly the primes below 312, so it is the first sixty-four |
| Sha256.InitialConstants | forensic/src/lib.rs:822-831 | every initial hash word is the first 32 bits of the fraction of the square root of its prime |
| Sha256.PadMessage | forensic/src/lib.rs:832-838 | the padding loop produces the message, the marker, the fewest zeros and the length |
| Sha256.FewestZeros | forensic/src/lib.rs:834-837 | the number of zeros is the least that leaves eight bytes of the last block |
| Sha256.Padded | forensic/src/lib.rs:832-838 | a padded message is always a multiple of 64 bytes |
| Sha256.PaddingInjective | forensic/src/lib.rs:832-838 | different messages of fewer than 2^61 bytes are padded differently |
| Sha256.FillSchedule | forensic/src/lib.rs:850-857 | the in-place array holds the recursive message schedule, though the code adds its terms in another order |
| Sha256.ShiftRegisters | forensic/src/lib.rs:860-877 | the eight assignments in place are one round of the standard |
| Sha256.RunRounds | forensic/src/lib.rs:858-878 | the loop over the register array is sixty-four rounds |
| Sha256.CompressChunk | forensic/src/lib.rs:840-868 | one chunk updates the hash array to the next intermediate hash value |
| Sha256.Sha256Hex | forensic/src/lib.rs:755-889 | the whole computation returns the lower-case hexadecimal of the recursive digest, for every message |

## Left out

- zlib, zstd and LZO1X block decoding: external crates, taken as parameters.
- LeafWriter.BuildLeaf: requires the items to fit the node and the node size to fit its 32-bit offsets, where the test helper would panic or truncate instead.
- SweepReach.SweepComplete: claims nothing about which nodes are missed once the budget runs out.
- ChunkWalk.WalkRefinesRecursion, `GraphWalks.GraphWalked`: assume that where a chunk covers an address visited it places it where the bootstrap does; without that the walk's own map decides where it goes next, and only `EmptyMaps`' results, which need no such assumption, and the step-by-step specification remain.
- Tampering.TamperAudited: takes it as given that the changed image is swept within the budget; `LeafTamperAudited` discharges that for leaves, while a rewritten interior node may point to more.
- UTF-8: names are byte sequences, so a lossy conversion that makes two names equal is not seen.
- Superblock fields other than those listed, labels and UUID text; inode timestamps and the other flat metadata fields.
- Severities, codes, notes, evidence and `Finding` conversion: lookup tables and text.
- `core/src/vfs.rs`, and the wrappers `read_file` and `read_by_path_content`, which only chain calls modelled here.
- `Node::parse`'s and `Superblock::parse`'s own field-copy loops (checksum, fsid): read as slices.
- RAID and multi-device mapping, and descent below an FS_TREE root that is not a leaf: the code does neither.
- CRC32c as a polynomial remainder: the bitwise form is the reference here.
